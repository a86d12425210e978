/**
  The activation state machine on values: what one client call, bring-up effect, settle, wifi
  event or link event does to the registry of active connections and to the devices.

  Granularity: Activate, Settle (the superseded check together with the writes that follow it),
  Deactivate, a wifi event and a profile deletion are one step each.  Module LockSteps looks at
  the same code one mutex section at a time.
 */
module ActivationSpec {
  import opened Common

  datatype Kind = Unknown | Ethernet | Wifi | WireGuard | Loopback | Bridge | Tun

  // NMDeviceState
  const DEV_UNMANAGED := 10
  const DEV_DISCONNECTED := 30
  const DEV_PREPARE := 40
  const DEV_CONFIG := 50
  const DEV_IP_CONFIG := 70
  const DEV_ACTIVATED := 100
  const DEV_DEACTIVATING := 110
  const DEV_FAILED := 120

  // NMActiveConnectionState
  const AC_ACTIVATING := 1
  const AC_ACTIVATED := 2
  const AC_DEACTIVATING := 3
  const AC_DEACTIVATED := 4

  /** An ActiveConnection object; `past` holds the values State had before the present one. */
  datatype Conn = Conn(profile: Path, device: Path, adopted: bool, gone: bool,
                       pending: bool,  // its runActivation goroutine has not settled yet
                       ip4: Path, past: seq<nat>, state: nat)
  {
    function SetState(v: nat): Conn { this.(past := past + [state], state := v) }

    /** Every value State has had, oldest first. */
    function History(): seq<nat> { past + [state] }
  }

  datatype Dev = Dev(kind: Kind, managed: bool, state: nat, activeConn: Path, activeAP: Path,
                     ip4: Path, ip4obj: Path, carrier: bool, autoWired: bool)

  datatype State = State(conns: map<Path, Conn>,     // every connection ever exported
                         registry: set<Path>,        // the keys of activeConns
                         devs: map<Path, Dev>,       // every device ever created
                         listed: map<string, Path>,  // devByIface
                         primary: Path,
                         profiles: set<Path>,        // the stored settings connections
                         acGen: nat, devGen: nat, ipGen: nat, profGen: nat)

  const INIT := State(map[], {}, map[], map[], NULL_PATH, {}, 0, 0, 0, 0)

  /** Conns and devs refer to each other by path; every path that is used resolves. */
  ghost predicate Linked(s: State) {
    && s.registry <= s.conns.Keys
    && (forall p <- s.conns :: s.conns[p].device in s.devs)
    && (forall i <- s.listed :: s.listed[i] in s.devs)
    && (forall p <- s.conns :: 0 < p <= s.acGen)
    && (forall d <- s.devs :: 0 < d <= s.devGen)
    && (forall q <- s.profiles :: 0 < q <= s.profGen)
  }

  // ---- what the steps do -------------------------------------------------------------------

  /** Path p names a connection whose device exists. */
  predicate Resolves(s: State, p: Path) {
    p in s.conns && s.conns[p].device in s.devs
  }

  /** Device d exists, and so does what it is bound to. */
  predicate Bound(s: State, d: Path) {
    d in s.devs && (s.devs[d].activeConn in s.registry ==> Resolves(s, s.devs[d].activeConn))
  }

  function WithDev(s: State, d: Path, dev: Dev): State { s.(devs := s.devs[d := dev]) }

  function WithConn(s: State, p: Path, c: Conn): State { s.(conns := s.conns[p := c]) }

  function Unregister(s: State, p: Path): State {
    s.(registry := s.registry - {p}, primary := if s.primary == p then NULL_PATH else s.primary)
  }

  function NewDev(kind: Kind, carrier: bool): Dev {
    var managed := !kind.Loopback?;
    Dev(kind, managed, if managed then DEV_DISCONNECTED else DEV_UNMANAGED,
        NULL_PATH, NULL_PATH, NULL_PATH, NULL_PATH, carrier, false)
  }

  function NewConn(q: Path, d: Path, adopted: bool): Conn {
    Conn(q, d, adopted, false, !adopted, NULL_PATH, [], if adopted then AC_ACTIVATED else AC_ACTIVATING)
  }

  /** A new connection enters the registry, unless its export fails; its path is used up either way. */
  function Register(s: State, q: Path, d: Path, adopted: bool, exported: bool): State {
    var p := s.acGen + 1;
    if exported then s.(acGen := p, conns := s.conns[p := NewConn(q, d, adopted)], registry := s.registry + {p})
    else s.(acGen := p)
  }

  /** Carrier facts count for ethernet only; losing carrier clears the autoconnect latch. */
  function Relinked(dev: Dev, carrier: bool): Dev {
    if dev.kind.Ethernet? then dev.(carrier := carrier, autoWired := dev.autoWired && carrier) else dev
  }

  /** A device as deactivate leaves it. */
  function Idle(d: Dev): Dev {
    d.(state := DEV_DISCONNECTED, activeConn := NULL_PATH, activeAP := NULL_PATH, ip4 := NULL_PATH, ip4obj := NULL_PATH)
  }

  /** A connection as deactivate leaves it. */
  function Torn(c: Conn): Conn {
    c.(gone := true).SetState(AC_DEACTIVATING).SetState(AC_DEACTIVATED)
  }

  function Deactivate(s: State, p: Path): State
    requires Resolves(s, p)
  {
    var c := s.conns[p];
    if c.gone then s else
      WithDev(WithConn(Unregister(s, p), p, Torn(c)), c.device, Idle(s.devs[c.device]))
  }

  /** The connection bound to device d, or the null path. */
  function ActiveOn(s: State, d: Path): Path
    requires d in s.devs
  {
    if s.devs[d].activeConn in s.registry then s.devs[d].activeConn else NULL_PATH
  }

  function Release(s: State, d: Path): State
    requires Bound(s, d)
  {
    var cur := ActiveOn(s, d);
    if cur != NULL_PATH then Deactivate(s, cur) else s
  }

  function Prepare(s: State, d: Path, p: Path): State
    requires d in s.devs
  {
    WithDev(s, d, s.devs[d].(activeConn := p, state := DEV_PREPARE))
  }

  /** A client (or wired autoconnect) activates stored profile q on device d. */
  function Activate(s: State, q: Path, d: Path, exported: bool): State
    requires Bound(s, d)
  {
    var r := Release(s, d);
    var t := Register(r, q, d, false, exported);
    if exported then Prepare(t, d, t.acGen) else t
  }

  /** What an unfinished bring-up may still write, superseded or not. */
  datatype Effect = SetConfig | SetIPConfig | SetAP(ap: Path) | ApplyLease(exported: bool)

  function BindDevIP4(s: State, d: Path, i: Path): State
    requires d in s.devs
  {
    s.(devs := s.devs[d := s.devs[d].(ip4obj := i, ip4 := i)])
  }

  function BindConnIP4(s: State, p: Path, i: Path): State
    requires p in s.conns
  {
    s.(conns := s.conns[p := s.conns[p].(ip4 := i)])
  }

  function Touched(dev: Dev, e: Effect): Dev
    requires !e.ApplyLease?
  {
    match e
    case SetConfig => if dev.kind.Wifi? then dev.(state := DEV_CONFIG) else dev
    case SetIPConfig => if dev.kind.Wifi? || dev.kind.Ethernet? then dev.(state := DEV_IP_CONFIG) else dev
    case SetAP(ap) => if dev.kind.Wifi? then dev.(activeAP := ap) else dev
  }

  function WithLease(s: State, p: Path, i: nat): State
    requires Resolves(s, p)
  {
    BindConnIP4(BindDevIP4(s.(ipGen := i), s.conns[p].device, i), p, i)
  }

  function Leased(s: State, p: Path, exported: bool): State
    requires Resolves(s, p)
  {
    var i := s.ipGen + 1;
    if exported then WithLease(s, p, i) else s.(ipGen := i)
  }

  function BringUpEffect(s: State, p: Path, e: Effect): State
    requires Resolves(s, p)
  {
    var d := s.conns[p].device;
    if !e.ApplyLease? then s.(devs := s.devs[d := Touched(s.devs[d], e)])
    else if !s.devs[d].kind.Wifi? && !s.devs[d].kind.Ethernet? then s
    else Leased(s, p, e.exported)
  }

  /** bringUp refuses every other kind. */
  predicate Supported(k: Kind) { k.Wifi? || k.Ethernet? || k.WireGuard? }

  /** runActivation after bringUp returned; ctxDone says whether its context was cancelled. */
  function Settle(s: State, p: Path, failed: bool, ctxDone: bool): State
    requires Resolves(s, p)
  {
    var c := s.conns[p].(pending := false);
    var dev := s.devs[c.device];
    var t := s.(conns := s.conns[p := c]);
    if ctxDone || c.gone then t
    else if failed || !Supported(dev.kind) then
      Deactivate(t.(devs := t.devs[c.device := dev.(state := DEV_FAILED)]), p)
    else
      t.(conns := s.conns[p := c.SetState(AC_ACTIVATED)],
         devs := s.devs[c.device := dev.(state := DEV_ACTIVATED)],
         primary := p)
  }

  /** p becomes primary unless a registered connection is. */
  function Promoted(s: State, p: Path): State {
    s.(primary := if s.primary !in s.registry then p else s.primary)
  }

  /** A new adopted connection on device d. */
  function Adopted(s: State, d: Path, q: Path): State
    requires d in s.devs
  {
    var t := Register(s, q, d, true, true);
    Promoted(WithDev(t, d, t.devs[d].(activeConn := t.acGen)), t.acGen)
  }

  /** adoptWifi: the radio associated on its own; q is the matching profile, or null. */
  function Adopt(s: State, d: Path, emptySSID: bool, q: Path, exported: bool): State
    requires d in s.devs
  {
    if emptySSID || s.devs[d].activeConn != NULL_PATH then s
    else if exported then Adopted(s, d, q)
    else Register(s, q, d, true, false)
  }

  /** dropAdoptedWifi, the second way out of the registry: it does not set `gone`. */
  function DropAdopted(s: State, d: Path): State
    requires Bound(s, d)
  {
    var p := s.devs[d].activeConn;
    if p !in s.registry || !s.conns[p].adopted then s else
      WithDev(WithConn(Unregister(s, p), p, s.conns[p].SetState(AC_DEACTIVATED)), d,
        s.devs[d].(activeConn := NULL_PATH))
  }

  datatype WifiChange = Connected(emptySSID: bool, ap: Path, profile: Path, exported: bool)
                      | Connecting | Disconnecting | Disconnected

  function Associated(s: State, d: Path, emptySSID: bool, ap: Path): State
    requires d in s.devs
  {
    WithDev(s, d, s.devs[d].(state := DEV_ACTIVATED, activeAP := if emptySSID then s.devs[d].activeAP else ap))
  }

  function WifiEvent(s: State, d: Path, w: WifiChange): State
    requires Bound(s, d)
  {
    var dev := s.devs[d];
    if !dev.kind.Wifi? then s else
      match w
      case Connected(empty, ap, q, exported) =>
        Adopt(Associated(s, d, empty, ap), d, empty, q, exported)
      case Connecting => s.(devs := s.devs[d := dev.(state := DEV_CONFIG)])
      case Disconnecting => s.(devs := s.devs[d := dev.(state := DEV_DEACTIVATING)])
      case Disconnected =>
        var t := DropAdopted(s, d);
        t.(devs := t.devs[d := t.devs[d].(state := DEV_DISCONNECTED, activeAP := NULL_PATH)])
  }

  function AddDevice(s: State, kind: Kind, carrier: bool): State {
    s.(devGen := s.devGen + 1, devs := s.devs[s.devGen + 1 := NewDev(kind, carrier)])
  }

  /** onLinkEvent: a removed link is delisted but not deactivated. */
  function LinkChange(s: State, iface: string, kind: Kind, carrier: bool, up: bool): State
    requires iface in s.listed ==> s.listed[iface] in s.devs
  {
    if !up then s.(listed := s.listed - {iface})
    else if iface in s.listed then
      WithDev(s, s.listed[iface], Relinked(s.devs[s.listed[iface]], carrier))
    else
      var t := AddDevice(s, kind, carrier);
      t.(listed := t.listed[iface := t.devGen])
  }

  /** manageWired: the carrier is read again once the link was raised. */
  function Reread(s: State, d: Path, carrier: bool): State
    requires d in s.devs
  {
    if s.devs[d].kind.Ethernet? && s.devs[d].managed then WithDev(s, d, s.devs[d].(carrier := carrier)) else s
  }

  function AddProfile(s: State): State {
    s.(profGen := s.profGen + 1, profiles := s.profiles + {s.profGen + 1})
  }

  /**
    autoConnectWired with the profile it picked, or null when it must add one first; a new profile
    whose export fails is kept, but not activated.
   */
  function AutoConnect(s: State, d: Path, q: Path, added: bool, exported: bool): State
    requires Bound(s, d)
  {
    var dev := s.devs[d];
    if !dev.kind.Ethernet? || !dev.managed || !dev.carrier || dev.activeConn != NULL_PATH || dev.autoWired then s
    else if q == NULL_PATH && !added then AddProfile(s)
    else
      var t := WithDev(s, d, dev.(autoWired := true));
      var u := if q == NULL_PATH then AddProfile(t) else t;
      var v := Activate(u, if q == NULL_PATH then u.profGen else q, d, exported);
      if exported then v else WithDev(v, d, v.devs[d].(autoWired := false))
  }

  predicate AllResolve(s: State, ps: set<Path>) { forall p <- ps :: Resolves(s, p) }

  /** Tear down all of ps at once; the order in which Delete visits them does not matter. */
  function TearAll(s: State, ps: set<Path>): State
    requires ps <= s.conns.Keys
  {
    var live := set p | p in ps && !s.conns[p].gone;
    var hit := set p | p in live :: s.conns[p].device;
    s.(conns := map p | p in s.conns :: if p in live then Torn(s.conns[p]) else s.conns[p],
       devs := map d | d in s.devs :: if d in hit then Idle(s.devs[d]) else s.devs[d],
       registry := s.registry - live,
       primary := if s.primary in live then NULL_PATH else s.primary)
  }

  function Users(s: State, q: Path): (ps: set<Path>)
    requires s.registry <= s.conns.Keys
    ensures ps <= s.conns.Keys
  {
    set p | p in s.registry && s.conns[p].profile == q
  }

  function DeleteProfile(s: State, q: Path): State
    requires s.registry <= s.conns.Keys
  {
    var t := TearAll(s, Users(s, q));
    t.(profiles := t.profiles - {q})
  }

  // ---- runs ----------------------------------------------------------------------------------

  datatype Event =
    | EvAddProfile
    | EvLink(iface: string, kind: Kind, carrier: bool, up: bool)
    | EvReread(device: Path, carrier: bool)
    | EvActivate(profile: Path, device: Path, exported: bool)
    | EvAutoConnect(device: Path, profile: Path, added: bool, exported: bool)
    | EvEffect(conn: Path, effect: Effect)
    | EvSettle(conn: Path, failed: bool, ctxDone: bool)
    | EvDeactivate(conn: Path)
    | EvWifi(iface: string, change: WifiChange)
    | EvDelete(profile: Path)

  /** An event can occur when what it names exists and, for a bring-up, is still running. */
  predicate Enabled(s: State, e: Event) {
    match e
    case EvAddProfile => true
    case EvLink(_, _, _, _) => true
    case EvReread(d, _) => d in s.devs
    case EvActivate(q, d, _) => q in s.profiles && d in s.devs
    case EvAutoConnect(d, q, _, _) => d in s.devs && (q == NULL_PATH || q in s.profiles)
    case EvEffect(p, _) => p in s.conns && s.conns[p].pending
    case EvSettle(p, _, _) => p in s.conns && s.conns[p].pending
    case EvDeactivate(p) => p in s.registry
    case EvWifi(iface, w) => iface in s.listed && (w.Connected? ==> w.profile == NULL_PATH || w.profile in s.profiles)
    case EvDelete(q) => q in s.profiles
  }

  function Step(s: State, e: Event): State
    requires Linked(s) && Enabled(s, e)
  {
    match e
    case EvAddProfile => AddProfile(s)
    case EvLink(iface, kind, carrier, up) => LinkChange(s, iface, kind, carrier, up)
    case EvReread(d, carrier) => Reread(s, d, carrier)
    case EvActivate(q, d, exported) => Activate(s, q, d, exported)
    case EvAutoConnect(d, q, added, exported) => AutoConnect(s, d, q, added, exported)
    case EvEffect(p, effect) => BringUpEffect(s, p, effect)
    case EvSettle(p, failed, ctxDone) => Settle(s, p, failed, ctxDone)
    case EvDeactivate(p) => Deactivate(s, p)
    case EvWifi(iface, w) => WifiEvent(s, s.listed[iface], w)
    case EvDelete(q) => DeleteProfile(s, q)
  }

  /** s' is reached from s by the events es, each enabled where it occurs. */
  ghost predicate Reaches(s: State, es: seq<Event>, s': State)
    decreases |es|
  {
    if es == [] then s' == s
    else Linked(s) && Enabled(s, es[0]) && Reaches(Step(s, es[0]), es[1..], s')
  }

  // ---- the invariant -------------------------------------------------------------------------

  /** The registry and the devices are in bijection. */
  ghost predicate Bijection(s: State)
    requires Linked(s)
  {
    && (forall p <- s.registry :: !s.conns[p].gone && s.devs[s.conns[p].device].activeConn == p)
    && (forall d <- s.devs :: s.devs[d].activeConn != NULL_PATH ==>
          s.devs[d].activeConn in s.registry && s.conns[s.devs[d].activeConn].device == d)
  }

  /** The values State can have gone through, in order. */
  predicate Life(c: Conn, registered: bool) {
    var h := c.History();
    if registered then
      if c.adopted then h == [AC_ACTIVATED]
      else if c.pending then h == [AC_ACTIVATING]
      else h == [AC_ACTIVATING] || h == [AC_ACTIVATING, AC_ACTIVATED]
    else if !c.gone then c.adopted && h == [AC_ACTIVATED, AC_DEACTIVATED]
    else if c.adopted then h == [AC_ACTIVATED, AC_DEACTIVATING, AC_DEACTIVATED]
    else
      || h == [AC_ACTIVATING, AC_DEACTIVATING, AC_DEACTIVATED]
      || h == [AC_ACTIVATING, AC_ACTIVATED, AC_DEACTIVATING, AC_DEACTIVATED]
  }

  ghost predicate Lives(s: State) {
    forall p <- s.conns :: Life(s.conns[p], p in s.registry) && (s.conns[p].adopted ==> !s.conns[p].pending)
  }

  /** A device that is not wifi is Activated only while bound to an activated connection. */
  ghost predicate ActivatedIsBound(s: State) {
    forall d <- s.devs :: s.devs[d].state == DEV_ACTIVATED && !s.devs[d].kind.Wifi? ==>
      s.devs[d].activeConn in s.conns && s.conns[s.devs[d].activeConn].state == AC_ACTIVATED
  }

  ghost predicate Inv(s: State) {
    && Linked(s)
    && Bijection(s)
    && Lives(s)
    && ActivatedIsBound(s)
    && (s.primary == NULL_PATH || s.primary in s.registry)
    && (forall p <- s.registry :: s.conns[p].profile == NULL_PATH || s.conns[p].profile in s.profiles)
  }

  // ---- batches ---------------------------------------------------------------------------------

  /** Tearing down one more user extends the batch by it, whatever was torn down before. */
  lemma TearOneMore(s: State, ps: set<Path>, p: Path)
    requires p !in ps && Resolves(s, p) && ps <= s.conns.Keys && forall x <- ps :: Resolves(s, x)
    ensures Resolves(TearAll(s, ps), p)
    ensures Deactivate(TearAll(s, ps), p) == TearAll(s, ps + {p})
  {
    var live := set x | x in ps && !s.conns[x].gone;
    var live' := set x | x in ps + {p} && !s.conns[x].gone;
    assert live' == if s.conns[p].gone then live else live + {p};
    var hit := set x | x in live :: s.conns[x].device;
    var hit' := set x | x in live' :: s.conns[x].device;
    assert hit' == if s.conns[p].gone then hit else hit + {s.conns[p].device};
    if s.conns[p].gone {
      assert TearAll(s, ps).conns == TearAll(s, ps + {p}).conns;
      assert TearAll(s, ps).devs == TearAll(s, ps + {p}).devs;
    } else {
      TearOneMoreLive(s, ps, p);
    }
  }

  lemma TearOneMoreLive(s: State, ps: set<Path>, p: Path)
    requires p !in ps && Resolves(s, p) && !s.conns[p].gone && ps <= s.conns.Keys && forall x <- ps :: Resolves(s, x)
    ensures Resolves(TearAll(s, ps), p)
    ensures Deactivate(TearAll(s, ps), p) == TearAll(s, ps + {p})
  {
    var live := set x | x in ps && !s.conns[x].gone;
    var hit := set x | x in live :: s.conns[x].device;
    var live' := set x | x in ps + {p} && !s.conns[x].gone;
    var hit' := set x | x in live' :: s.conns[x].device;
    var d := s.conns[p].device;
    assert live' == live + {p};
    assert hit' == hit + {d};
    var t := TearAll(s, ps);
    var v := TearAll(s, ps + {p});
    assert t.conns[p := Torn(s.conns[p])] == v.conns;
    assert t.devs[d := Idle(s.devs[d])] == v.devs;
    assert Idle(t.devs[d]) == Idle(s.devs[d]);
    assert t.registry - {p} == v.registry;
  }

  lemma TearNone(s: State)
    ensures TearAll(s, {}) == s
  {
    assert TearAll(s, {}).conns == s.conns;
    assert TearAll(s, {}).devs == s.devs;
  }
}
