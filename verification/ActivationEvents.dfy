/** What each event does to the daemon's state, told from outside, and how often a device is connected automatically. */
module ActivationEvents {
  import opened Common
  import opened ActivationInvariant
  import opened ActivationOutcomes
  import opened ActivationSpec
  import A = Autoconnect

  // ---- clients and bring-ups ---------------------------------------------------------------------------------

  /** A client's deactivation tears down that connection and nothing else. */
  lemma DeactivateExactly(s: State, p: Path)
    requires Inv(s) && p in s.registry
    ensures TornDown(s, Step(s, EvDeactivate(p)), {p})
  {
    DeactivateTears(s, p);
  }

  lemma TearAllTears(s: State, ps: set<Path>)
    requires Inv(s) && ps <= s.registry
    ensures TornDown(s, TearAll(s, ps), ps)
  {
    assert (set p | p in ps && !s.conns[p].gone) == ps;
    TearAllConns(s, ps);
    TearAllDevices(s, ps);
  }

  lemma TearAllConns(s: State, ps: set<Path>)
    requires Inv(s) && ps <= s.registry
    ensures TornConns(s.conns, TearAll(s, ps).conns, ps)
  {
    forall p | p in ps ensures TornFrom(s.conns[p], Torn(s.conns[p])) {
      assert Torn(s.conns[p]).History() == s.conns[p].History() + [AC_DEACTIVATING, AC_DEACTIVATED];
    }
  }

  lemma TearAllDevices(s: State, ps: set<Path>)
    requires Inv(s) && ps <= s.registry
    ensures FreedDevs(s.devs, TearAll(s, ps).devs, ps)
  {
    var hit := set p | p in ps && !s.conns[p].gone :: s.conns[p].device;
    forall d | d in s.devs ensures d in hit <==> s.devs[d].activeConn in ps {
      assert NULL_PATH !in ps;
      if s.devs[d].activeConn in ps { assert s.conns[s.devs[d].activeConn].device == d; }
    }
  }

  /** Deleting a profile tears down the connections of it and nothing else. */
  lemma DeleteExactly(s: State, q: Path)
    requires Inv(s) && q in s.profiles
    ensures
      var t := Step(s, EvDelete(q));
      && t.profiles == s.profiles - {q}
      && TornDown(s, t.(profiles := s.profiles), set p | p in s.registry && s.conns[p].profile == q)
  {
    TearAllTears(s, Users(s, q));
  }

  lemma AddProfileExactly(s: State)
    requires Inv(s)
    ensures
      var t := Step(s, EvAddProfile);
      t == s.(profGen := t.profGen, profiles := s.profiles + {t.profGen}) && t.profGen !in s.profiles
  {}

  /**
    A client's activation tears down what the device carried.  Then it starts a connection of the
    profile there, or, when the export fails, has only used up a path.
   */
  lemma ActivateExactly(s: State, q: Path, d: Path, exported: bool) returns (r: State)
    requires Inv(s) && q in s.profiles && d in s.devs
    ensures TornDown(s, r, {s.devs[d].activeConn} - {NULL_PATH})
    ensures
      var t := Step(s, EvActivate(q, d, exported));
      if exported then Started(r, t, q, d) else t == r.(acGen := s.acGen + 1)
  {
    r := Release(s, d);
    ReleaseTears(s, d);
    if exported { PrepareOutcome(r, q, d); }
  }

  /** What a bring-up writes before it settles: device states, the access point, a lease on device and connection. */
  lemma EffectExactly(s: State, p: Path, e: Effect)
    requires Inv(s) && p in s.conns && s.conns[p].pending
    ensures
      var d, t := s.conns[p].device, Step(s, EvEffect(p, e));
      var wifi, wired, i := s.devs[d].kind.Wifi?, s.devs[d].kind.Ethernet?, s.ipGen + 1;
      match e
      case SetConfig => t == if wifi then s.(devs := s.devs[d := s.devs[d].(state := DEV_CONFIG)]) else s
      case SetIPConfig =>
        t == if wifi || wired then s.(devs := s.devs[d := s.devs[d].(state := DEV_IP_CONFIG)]) else s
      case SetAP(ap) => t == if wifi then s.(devs := s.devs[d := s.devs[d].(activeAP := ap)]) else s
      case ApplyLease(exported) =>
        t == if !wifi && !wired then s
             else if !exported then s.(ipGen := i)
             else s.(ipGen := i, conns := s.conns[p := s.conns[p].(ip4 := i)],
                     devs := s.devs[d := s.devs[d].(ip4 := i, ip4obj := i)])
  {
    var d := s.conns[p].device;
    assert s.devs[d := s.devs[d]] == s.devs;
  }

  // ---- the radio -----------------------------------------------------------------------------------------------

  /** An association the radio made on its own is adopted on a free device. */
  predicate Adopts(s: State, d: Path, w: WifiChange)
    requires d in s.devs
  {
    w.Connected? && w.exported && !w.emptySSID && s.devs[d].activeConn == NULL_PATH
  }

  /** The device carries a connection that was adopted. */
  predicate CarriesAdopted(s: State, d: Path)
    requires d in s.devs
  {
    s.devs[d].activeConn in s.conns && s.conns[s.devs[d].activeConn].adopted
  }

  /** What the device shows after the event, apart from its binding. */
  predicate WifiShows(was: Dev, now: Dev, w: WifiChange) {
    now == was.(activeConn := now.activeConn,
                state := match w
                         case Connected(_, _, _, _) => DEV_ACTIVATED
                         case Connecting => DEV_CONFIG
                         case Disconnecting => DEV_DEACTIVATING
                         case Disconnected => DEV_DISCONNECTED,
                activeAP := match w
                            case Connected(empty, ap, _, _) => if empty then was.activeAP else ap
                            case Disconnected => NULL_PATH
                            case _ => was.activeAP)
  }

  /** Nothing but the device d and the connections changed. */
  predicate OnlyDevice(s: State, t: State, d: Path) {
    && d in t.devs && t.devs == s.devs[d := t.devs[d]]
    && t.listed == s.listed && t.profiles == s.profiles
    && t.devGen == s.devGen && t.ipGen == s.ipGen && t.profGen == s.profGen
  }

  /** Connection p of profile q was adopted on device d; it is primary only if nothing was. */
  predicate TookOver(s: State, t: State, d: Path, p: Path, q: Path) {
    && p !in s.conns && p in t.conns && d in t.devs
    && t.conns == s.conns[p := t.conns[p]] && t.registry == s.registry + {p}
    && t.conns[p] == Conn(q, d, true, false, false, NULL_PATH, [], AC_ACTIVATED)
    && t.devs[d].activeConn == p && t.primary == if s.primary == NULL_PATH then p else s.primary
  }

  /** The adopted connection p was dropped from device d: it shows Deactivated, without having been torn down. */
  predicate LetGo(s: State, t: State, d: Path, p: Path) {
    && p in s.conns && p in t.conns && d in t.devs
    && t.conns == s.conns[p := s.conns[p].(past := s.conns[p].past + [AC_ACTIVATED], state := AC_DEACTIVATED)]
    && t.registry == s.registry - {p} && t.devs[d].activeConn == NULL_PATH
    && t.primary == if s.primary == p then NULL_PATH else s.primary
  }

  predicate SameConnections(s: State, t: State, d: Path) {
    && d in s.devs && d in t.devs && t.devs[d].activeConn == s.devs[d].activeConn
    && t.conns == s.conns && t.registry == s.registry && t.primary == s.primary
  }

  /** What a radio event does to a wifi device and the connection it carries. */
  predicate WifiDoes(s: State, t: State, d: Path, w: WifiChange)
    requires d in s.devs
  {
    && OnlyDevice(s, t, d) && WifiShows(s.devs[d], t.devs[d], w)
    && if Adopts(s, d, w) then TookOver(s, t, d, s.acGen + 1, w.profile)
       else if w.Disconnected? && CarriesAdopted(s, d) then LetGo(s, t, d, s.devs[d].activeConn)
       else SameConnections(s, t, d)
  }

  /** A radio event, for every state of the device. */
  lemma WifiExactly(s: State, iface: string, w: WifiChange)
    requires Inv(s) && Enabled(s, EvWifi(iface, w))
    ensures
      var t, d := Step(s, EvWifi(iface, w)), s.listed[iface];
      if s.devs[d].kind.Wifi? then WifiDoes(s, t, d, w) else t == s
  {
    var d := s.listed[iface];
    if s.devs[d].kind.Wifi? {
      if w.Connected? {
        ConnectedDoes(s, d, w);
      } else if w.Disconnected? {
        DisconnectedDoes(s, d);
      }
    }
  }

  lemma ConnectedDoes(s: State, d: Path, w: WifiChange)
    requires Inv(s) && d in s.devs && s.devs[d].kind.Wifi? && w.Connected?
    ensures WifiDoes(s, WifiEvent(s, d, w), d, w)
  {
    AssociatedShows(s, d, w);
    AdoptShows(Associated(s, d, w.emptySSID, w.ap), d, w);
  }

  lemma DisconnectedDoes(s: State, d: Path)
    requires Inv(s) && d in s.devs && s.devs[d].kind.Wifi?
    ensures WifiDoes(s, WifiEvent(s, d, Disconnected), d, Disconnected)
  {
    if CarriesAdopted(s, d) { DropShows(s, d); }
  }

  lemma AssociatedShows(s: State, d: Path, w: WifiChange)
    requires Inv(s) && d in s.devs && s.devs[d].kind.Wifi? && w.Connected?
    ensures
      var t := Associated(s, d, w.emptySSID, w.ap);
      Inv(t) && OnlyDevice(s, t, d) && WifiShows(s.devs[d], t.devs[d], w) && SameConnections(s, t, d)
      && t.acGen == s.acGen
  {
    TouchInv(s, d, Associated(s, d, w.emptySSID, w.ap).devs[d]);
  }

  lemma AdoptShows(s: State, d: Path, w: WifiChange)
    requires Inv(s) && d in s.devs && w.Connected?
    ensures
      var t := Adopt(s, d, w.emptySSID, w.profile, w.exported);
      && OnlyDevice(s, t, d) && t.devs[d] == s.devs[d].(activeConn := t.devs[d].activeConn)
      && if Adopts(s, d, w) then TookOver(s, t, d, s.acGen + 1, w.profile) else SameConnections(s, t, d)
  {
    assert s.devs[d := s.devs[d]] == s.devs;
  }

  lemma DropShows(s: State, d: Path)
    requires Inv(s) && d in s.devs && CarriesAdopted(s, d)
    ensures
      var t := DropAdopted(s, d);
      OnlyDevice(s, t, d) && LetGo(s, t, d, s.devs[d].activeConn) && t.devs[d] == s.devs[d].(activeConn := NULL_PATH)
  {
    var p := s.devs[d].activeConn;
    assert p in s.registry && Life(s.conns[p], true);
    assert s.conns[p].History() == [AC_ACTIVATED];
    assert s.conns[p].History()[0] == s.conns[p].state;
  }

  // ---- links ----------------------------------------------------------------------------------------------------

  /**
    A link that goes is only taken off the list.  One that is listed reports its carrier, which
    counts for a wired device and, when lost, opens its latch.  A new one makes a device, managed
    unless it is the loopback.
   */
  lemma LinkExactly(s: State, iface: string, kind: Kind, carrier: bool, up: bool)
    requires Inv(s)
    ensures
      var t := Step(s, EvLink(iface, kind, carrier, up));
      if !up then t == s.(listed := s.listed - {iface})
      else if iface in s.listed then
        var dev := s.devs[s.listed[iface]];
        t == if !dev.kind.Ethernet? then s
             else if carrier then s.(devs := s.devs[s.listed[iface] := dev.(carrier := true)])
             else s.(devs := s.devs[s.listed[iface] := dev.(carrier := false, autoWired := false)])
      else
        && t.devGen !in s.devs && t.devGen in t.devs
        && t == s.(devGen := t.devGen, devs := s.devs[t.devGen := t.devs[t.devGen]],
                   listed := s.listed[iface := t.devGen])
        && var dev := t.devs[t.devGen];
           && dev.kind == kind && dev.carrier == carrier && (dev.managed <==> kind != Loopback) && !dev.autoWired
           && dev.state == (if kind == Loopback then DEV_UNMANAGED else DEV_DISCONNECTED)
           && dev.activeConn == dev.activeAP == dev.ip4 == dev.ip4obj == NULL_PATH
  {
    if up && iface in s.listed {
      var dev := s.devs[s.listed[iface]];
      assert s.devs[s.listed[iface] := dev] == s.devs;
    }
  }

  /** The carrier read again after raising a wired link leaves everything else as it was, the latch too. */
  lemma RereadExactly(s: State, d: Path, carrier: bool)
    requires Inv(s) && d in s.devs
    ensures
      var t := Step(s, EvReread(d, carrier));
      && d in t.devs && (t.devs[d].carrier <==> if Wired(s.devs[d]) then carrier else s.devs[d].carrier)
      && t == s.(devs := s.devs[d := s.devs[d].(carrier := t.devs[d].carrier)])
  {
    assert s.devs[d := s.devs[d]] == s.devs;
  }

  predicate Wired(dev: Dev) { dev.kind.Ethernet? && dev.managed }

  // ---- connecting wired devices automatically ------------------------------------------------------------------

  /** A device that the daemon connects on its own: a free managed wired one with carrier and an open latch. */
  predicate Eligible(dev: Dev) { Wired(dev) && dev.carrier && dev.activeConn == NULL_PATH && !dev.autoWired }

  /** The event connects device d automatically. */
  predicate AutoBinds(s: State, e: Event, d: Path)
    requires Linked(s) && Enabled(s, e)
  {
    && e.EvAutoConnect? && e.device == d && d in s.devs && s.devs[d].activeConn == NULL_PATH
    && d in Step(s, e).devs && Step(s, e).devs[d].activeConn != NULL_PATH
  }

  /** Connection p of profile q was started on device d, whose latch is now closed. */
  predicate AutoStarted(s: State, t: State, d: Path, p: Path, q: Path) {
    && d in s.devs && p !in s.conns && p in t.conns
    && t.conns == s.conns[p := t.conns[p]] && IsStarting(t.conns[p], q, d) && t.registry == s.registry + {p}
    && t.devs == s.devs[d := s.devs[d].(activeConn := p, state := DEV_PREPARE, autoWired := true)]
    && t.primary == s.primary && t.listed == s.listed
  }

  /** A failed attempt leaves devices and connections as they were, with the latch open. */
  predicate AutoFailed(s: State, t: State) {
    t.devs == s.devs && t.conns == s.conns && t.registry == s.registry && t.primary == s.primary
      && t.listed == s.listed
  }

  /**
    An attempt connects the device exactly if it is eligible and nothing fails: a profile is stored
    or can be added, and the connection can be exported.
   */
  lemma AutoConnectExactly(s: State, d: Path, q: Path, added: bool, exported: bool)
    requires Inv(s) && Enabled(s, EvAutoConnect(d, q, added, exported))
    ensures
      var e := EvAutoConnect(d, q, added, exported);
      var t := Step(s, e);
      && (AutoBinds(s, e, d) <==> Eligible(s.devs[d]) && exported && (q != NULL_PATH || added))
      && (!Eligible(s.devs[d]) ==> t == s)
      && (Eligible(s.devs[d]) ==>
            && t.profiles == (if q != NULL_PATH then s.profiles else s.profiles + {s.profGen + 1})
            && if AutoBinds(s, e, d)
               then AutoStarted(s, t, d, s.acGen + 1, if q != NULL_PATH then q else s.profGen + 1)
               else AutoFailed(s, t))
  {
    if Eligible(s.devs[d]) && (q != NULL_PATH || added) {
      AttemptShows(s, d, q, added, exported);
    }
  }

  /** An attempt on an eligible device, for which a profile is there. */
  lemma AttemptShows(s: State, d: Path, q: Path, added: bool, exported: bool)
    requires Inv(s) && d in s.devs && Eligible(s.devs[d]) && (q != NULL_PATH || added)
    ensures
      var t := AutoConnect(s, d, q, added, exported);
      && t.profiles == (if q != NULL_PATH then s.profiles else s.profiles + {s.profGen + 1})
      && if exported then AutoStarted(s, t, d, s.acGen + 1, if q != NULL_PATH then q else s.profGen + 1)
         else AutoFailed(s, t)
  {
    var dev := s.devs[d];
    var u, x := AttemptIs(s, d, q, added, exported);
    FreeActivates(u, x, d, exported);
    var started := dev.(activeConn := s.acGen + 1, state := DEV_PREPARE, autoWired := true);
    SetTwice(s.devs, d, dev.(autoWired := true), started);
    SetTwice(s.devs, d, dev.(autoWired := true), dev);
  }

  /** The latch is taken, a profile x is there, and it is activated. */
  lemma AttemptIs(s: State, d: Path, q: Path, added: bool, exported: bool) returns (u: State, x: Path)
    requires Inv(s) && d in s.devs && Eligible(s.devs[d]) && (q != NULL_PATH || added)
    ensures Linked(u) && u.devs == s.devs[d := s.devs[d].(autoWired := true)]
    ensures u.conns == s.conns && u.registry == s.registry && u.primary == s.primary && u.listed == s.listed
      && u.acGen == s.acGen
    ensures x == (if q != NULL_PATH then q else s.profGen + 1)
      && u.profiles == (if q != NULL_PATH then s.profiles else s.profiles + {x})
    ensures
      var v := Activate(u, x, d, exported);
      && d in v.devs
      && AutoConnect(s, d, q, added, exported) == if exported then v else WithDev(v, d, v.devs[d].(autoWired := false))
  {
    var t := WithDev(s, d, s.devs[d].(autoWired := true));
    u := if q == NULL_PATH then AddProfile(t) else t;
    x := if q == NULL_PATH then u.profGen else q;
    FreeActivates(u, x, d, exported);
  }

  lemma SetTwice(devs: map<Path, Dev>, d: Path, a: Dev, b: Dev)
    requires d in devs
    ensures devs[d := a][d := b] == devs[d := b] && devs[d := devs[d]] == devs
  {}

  lemma FreeActivates(u: State, q: Path, d: Path, exported: bool)
    requires Linked(u) && d in u.devs && u.devs[d].activeConn == NULL_PATH
    ensures
      var v, p := Activate(u, q, d, exported), u.acGen + 1;
      && v.primary == u.primary && v.listed == u.listed && v.profiles == u.profiles
      && if exported then
           && p in v.conns && v.conns == u.conns[p := v.conns[p]] && IsStarting(v.conns[p], q, d)
           && v.registry == u.registry + {p} && v.devs == u.devs[d := u.devs[d].(activeConn := p, state := DEV_PREPARE)]
         else v.conns == u.conns && v.registry == u.registry && v.devs == u.devs
  {
    assert NULL_PATH !in u.registry;
  }

  /** A link event reports that the listed wired device d lost its carrier. */
  predicate LosesCarrier(s: State, e: Event, d: Path) {
    && e.EvLink? && e.up && !e.carrier && e.iface in s.listed && s.listed[e.iface] == d
    && d in s.devs && s.devs[d].kind.Ethernet?
  }

  /** An open latch is worth one automatic connection. */
  function Credit(s: State, d: Path): nat { if d in s.devs && s.devs[d].autoWired then 0 else 1 }

  function Ones(b: bool): nat { if b then 1 else 0 }

  /** Connecting costs the credit; only a lost carrier brings it back. */
  lemma CreditKept(s: State, e: Event, d: Path)
    requires Inv(s) && Enabled(s, e)
    ensures Ones(AutoBinds(s, e, d)) + Credit(Step(s, e), d) <= Credit(s, d) + Ones(LosesCarrier(s, e, d))
  {
    if e.EvAutoConnect? {
      AutoConnectExactly(s, e.device, e.profile, e.added, e.exported);
    } else if e.EvLink? {
      LinkExactly(s, e.iface, e.kind, e.carrier, e.up);
    } else {
      LatchesKept(s, e);
    }
  }

  /** No latch changed. */
  ghost predicate Latched(s: State, t: State) {
    t.devs.Keys == s.devs.Keys && forall d <- s.devs :: t.devs[d].autoWired == s.devs[d].autoWired
  }

  lemma LatchesKept(s: State, e: Event)
    requires Inv(s) && Enabled(s, e) && !e.EvAutoConnect? && !e.EvLink?
    ensures Latched(s, Step(s, e))
  {
    match e
    case EvAddProfile =>
    case EvReread(d, carrier) => RereadLatches(s, d, carrier);
    case EvActivate(q, d, exported) => ActivateLatches(s, q, d, exported);
    case EvEffect(p, effect) => EffectLatches(s, p, effect);
    case EvSettle(p, failed, ctxDone) => SettleLatches(s, p, failed, ctxDone);
    case EvDeactivate(p) => DeactivateLatches(s, p);
    case EvWifi(iface, w) => WifiLatches(s, iface, w);
    case EvDelete(q) => DeleteLatches(s, q);
  }

  lemma RereadLatches(s: State, d: Path, carrier: bool)
    requires Inv(s) && d in s.devs
    ensures Latched(s, Step(s, EvReread(d, carrier)))
  {
    RereadExactly(s, d, carrier);
  }

  lemma ActivateLatches(s: State, q: Path, d: Path, exported: bool)
    requires Inv(s) && q in s.profiles && d in s.devs
    ensures Latched(s, Step(s, EvActivate(q, d, exported)))
  {
    var r := ActivateExactly(s, q, d, exported);
    TornLatches(s, r, {s.devs[d].activeConn} - {NULL_PATH});
  }

  lemma TornLatches(s: State, r: State, ps: set<Path>)
    requires TornDown(s, r, ps)
    ensures Latched(s, r)
  {}

  lemma EffectLatches(s: State, p: Path, e: Effect)
    requires Inv(s) && p in s.conns && s.conns[p].pending
    ensures Latched(s, Step(s, EvEffect(p, e)))
  {
    EffectExactly(s, p, e);
  }

  lemma DeactivateLatches(s: State, p: Path)
    requires Inv(s) && p in s.registry
    ensures Latched(s, Step(s, EvDeactivate(p)))
  {
    DeactivateExactly(s, p);
  }

  lemma DeleteLatches(s: State, q: Path)
    requires Inv(s) && q in s.profiles
    ensures Latched(s, Step(s, EvDelete(q)))
  {
    DeleteExactly(s, q);
  }

  lemma WifiLatches(s: State, iface: string, w: WifiChange)
    requires Inv(s) && Enabled(s, EvWifi(iface, w))
    ensures Latched(s, Step(s, EvWifi(iface, w)))
  {
    WifiExactly(s, iface, w);
  }

  lemma SettleLatches(s: State, p: Path, failed: bool, ctxDone: bool)
    requires Resolves(s, p)
    ensures Latched(s, Settle(s, p, failed, ctxDone))
  {}

  /** How often the events es, from s, connect device d automatically. */
  ghost function AutoCount(s: State, es: seq<Event>, d: Path): nat
    requires Inv(s)
    decreases |es|
  {
    if es == [] || !Enabled(s, es[0]) then 0
    else (StepInv(s, es[0]); Ones(AutoBinds(s, es[0], d)) + AutoCount(Step(s, es[0]), es[1..], d))
  }

  ghost function LossCount(s: State, es: seq<Event>, d: Path): nat
    requires Inv(s)
    decreases |es|
  {
    if es == [] || !Enabled(s, es[0]) then 0
    else (StepInv(s, es[0]); Ones(LosesCarrier(s, es[0], d)) + LossCount(Step(s, es[0]), es[1..], d))
  }

  /** Over any run, whatever clients do meanwhile: one automatic connection at most, and one for each carrier loss. */
  lemma {:induction false} AutoOncePerCarrier(s: State, es: seq<Event>, d: Path)
    requires Inv(s)
    ensures AutoCount(s, es, d) <= Credit(s, d) + LossCount(s, es, d) <= 1 + LossCount(s, es, d)
    decreases |es|
  {
    if es != [] && Enabled(s, es[0]) {
      StepInv(s, es[0]);
      CreditKept(s, es[0], d);
      AutoOncePerCarrier(Step(s, es[0]), es[1..], d);
    }
  }

  // ---- the same, one mutex section at a time ------------------------------------------------------------------

  /** What the sections of the latch see of a device. */
  function Latch(dev: Dev): A.State { A.State(dev.carrier, dev.autoWired, dev.activeConn, 0, 0, 0, 0) }

  predicate SameLatch(a: A.State, dev: Dev) {
    a.carrier == dev.carrier && a.autoWired == dev.autoWired && a.activeConn == dev.activeConn
  }

  /** A link event or a second look at the carrier is one section. */
  lemma LinkIsSection(s: State, iface: string, kind: Kind, carrier: bool)
    requires Inv(s) && iface in s.listed && Wired(s.devs[s.listed[iface]])
    ensures
      var d := s.listed[iface];
      var t, u := Step(s, EvLink(iface, kind, carrier, true)), Step(s, EvReread(d, carrier));
      && d in t.devs && SameLatch(A.Step(Latch(s.devs[d]), A.Link(carrier)), t.devs[d])
      && d in u.devs && SameLatch(A.Step(Latch(s.devs[d]), A.Reread(carrier)), u.devs[d])
  {
    LinkExactly(s, iface, kind, carrier, true);
    RereadExactly(s, s.listed[iface], carrier);
  }

  /** An automatic attempt is the section that tests the device and, if it goes on, the one it ends with. */
  lemma AttemptIsSections(s: State, d: Path, q: Path, added: bool, exported: bool)
    requires Inv(s) && Enabled(s, EvAutoConnect(d, q, added, exported)) && Wired(s.devs[d])
    ensures
      var t, a := Step(s, EvAutoConnect(d, q, added, exported)), A.Step(Latch(s.devs[d]), A.Try);
      && d in t.devs
      && if a.running == 0 then t == s && SameLatch(a, t.devs[d])
         else if exported && (q != NULL_PATH || added) then SameLatch(A.Step(a, A.Win(s.acGen + 1)), t.devs[d])
         else SameLatch(A.Step(a, A.Fail), t.devs[d])
  {
    AutoConnectExactly(s, d, q, added, exported);
  }
}
