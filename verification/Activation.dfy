/**
  The daemon's own form of the activation state machine: objects updated in place.  Each method
  makes the writes of its Go counterpart in the same order and is proved to take the abstract
  state exactly where the step function of ActivationSpec takes it.  The backends (radio, netlink,
  resolver) and the bus are outside the model; an export that fails is a parameter.
 */
module Activation {
  import opened Common
  import S = ActivationSpec

  class Device {
    const path: Path
    const kind: S.Kind
    const managed: bool
    var state: nat
    var activeConn: Path
    var activeAP: Path
    var ip4: Path
    var ip4obj: Path
    var carrier: bool
    var autoWired: bool

    constructor (path: Path, kind: S.Kind, carrier: bool)
      ensures this.path == path
      ensures Abs() == S.NewDev(kind, carrier)
    {
      this.path, this.kind, this.managed := path, kind, !kind.Loopback?;
      state := if kind.Loopback? then S.DEV_UNMANAGED else S.DEV_DISCONNECTED;
      activeConn, activeAP, ip4, ip4obj := NULL_PATH, NULL_PATH, NULL_PATH, NULL_PATH;
      this.carrier, autoWired := carrier, false;
    }

    ghost function Abs(): S.Dev
      reads this
    {
      S.Dev(kind, managed, state, activeConn, activeAP, ip4, ip4obj, carrier, autoWired)
    }
  }

  class ActiveConnection {
    const path: Path
    const profile: Path
    const device: Device
    const adopted: bool
    var gone: bool
    var pending: bool
    var ip4: Path
    ghost var past: seq<nat>
    var state: nat

    constructor (path: Path, profile: Path, device: Device, adopted: bool)
      ensures this.path == path && this.device == device
      ensures Abs() == S.NewConn(profile, device.path, adopted)
    {
      this.path, this.profile, this.device, this.adopted := path, profile, device, adopted;
      gone, pending, ip4, past := false, !adopted, NULL_PATH, [];
      state := if adopted then S.AC_ACTIVATED else S.AC_ACTIVATING;
    }

    ghost function Abs(): S.Conn
      reads this
    {
      S.Conn(profile, device.path, adopted, gone, pending, ip4, past, state)
    }
  }

  class Manager {
    var devices: seq<Device>
    var devByIface: map<string, Device>
    var activeConns: map<Path, ActiveConnection>
    var primary: Path
    var profiles: set<Path>
    var acGen: nat
    var devGen: nat
    var ipGen: nat
    var profGen: nat
    ghost var acs: set<ActiveConnection>  // every connection ever exported
    ghost var devs: set<Device>           // every device ever created
    ghost var view: S.State               // the abstract state, kept in step by every method

    /** The objects are exactly what `view` says, no more; it says nothing about how they are bound. */
    ghost predicate Valid()
      reads this, acs, devs
    {
      && (forall c <- acs :: 0 < c.path <= acGen && c.device in devs && c.path in view.conns
            && view.conns[c.path] == c.Abs())
      && (forall d <- devs :: 0 < d.path <= devGen && d.path in view.devs && view.devs[d.path] == d.Abs())
      && (forall c, c' | c in acs && c' in acs && c.path == c'.path :: c == c')
      && (forall d, d' | d in devs && d' in devs && d.path == d'.path :: d == d')
      && (forall p <- activeConns :: activeConns[p] in acs && activeConns[p].path == p)
      && (forall i <- devByIface :: devByIface[i] in devs && i in view.listed && view.listed[i] == devByIface[i].path)
      && view.registry == activeConns.Keys && view.listed.Keys == devByIface.Keys
      && view.primary == primary && view.profiles == profiles
      && view.acGen == acGen && view.devGen == devGen && view.ipGen == ipGen && view.profGen == profGen
    }

    constructor ()
      ensures Valid() && view == S.INIT && acs == {} && devs == {}
    {
      devices, devByIface, activeConns, primary, profiles := [], map[], map[], NULL_PATH, {};
      acGen, devGen, ipGen, profGen := 0, 0, 0, 0;
      acs, devs, view := {}, {}, S.INIT;
    }

    // ---- single writes -----------------------------------------------------------------------

    method SetDevState(dev: Device, v: nat)
      requires Valid() && dev in devs
      modifies this`view, dev`state
      ensures Valid() && view == S.WithDev(old(view), dev.path, old(view.devs[dev.path]).(state := v))
    {
      if dev.state != v { dev.state := v; }
      view := S.WithDev(view, dev.path, view.devs[dev.path].(state := v));
    }

    method SetActiveConnection(dev: Device, p: Path)
      requires Valid() && dev in devs
      modifies this`view, dev`activeConn
      ensures Valid() && view == S.WithDev(old(view), dev.path, old(view.devs[dev.path]).(activeConn := p))
    {
      dev.activeConn := p;
      view := S.WithDev(view, dev.path, view.devs[dev.path].(activeConn := p));
    }

    method SetActiveAP(dev: Device, p: Path)
      requires Valid() && dev in devs
      modifies this`view, dev`activeAP
      ensures Valid() && view == S.WithDev(old(view), dev.path, old(view.devs[dev.path]).(activeAP := p))
    {
      dev.activeAP := p;
      view := S.WithDev(view, dev.path, view.devs[dev.path].(activeAP := p));
    }

    /** Replaces the device's IP4Config object and publishes its path. */
    method SetIP4Config(dev: Device, p: Path)
      requires Valid() && dev in devs
      modifies this`view, dev`ip4obj, dev`ip4
      ensures Valid() && view == S.WithDev(old(view), dev.path, old(view.devs[dev.path]).(ip4obj := p, ip4 := p))
    {
      dev.ip4obj := p;
      dev.ip4 := p;
      view := S.WithDev(view, dev.path, view.devs[dev.path].(ip4obj := p, ip4 := p));
    }

    method SetAutoWired(dev: Device, v: bool)
      requires Valid() && dev in devs
      modifies this`view, dev`autoWired
      ensures Valid() && view == S.WithDev(old(view), dev.path, old(view.devs[dev.path]).(autoWired := v))
    {
      dev.autoWired := v;
      view := S.WithDev(view, dev.path, view.devs[dev.path].(autoWired := v));
    }

    /** Applies changed link facts; start says that carrier just came up. */
    method UpdateLink(dev: Device, up: bool) returns (start: bool)
      requires Valid() && dev in devs
      modifies this`view, dev`carrier, dev`autoWired
      ensures Valid() && view == S.WithDev(old(view), dev.path, S.Relinked(old(view.devs[dev.path]), up))
      ensures start <==> dev.kind.Ethernet? && up && !old(dev.carrier)
    {
      view := S.WithDev(view, dev.path, S.Relinked(view.devs[dev.path], up));
      if !dev.kind.Ethernet? { return false; }
      var was := dev.carrier;
      dev.carrier := up;
      if !up { dev.autoWired := false; }
      start := up && !was;
    }

    /** The end of manageWired, before it tries to connect: the carrier that is read once the link was raised. */
    method RereadCarrier(dev: Device, carrier: bool)
      requires Valid() && dev in devs
      modifies this`view, dev`carrier
      ensures Valid() && view == S.Reread(old(view), dev.path, carrier)
    {
      if !dev.kind.Ethernet? || !dev.managed { return; }
      dev.carrier := carrier;
      view := S.WithDev(view, dev.path, view.devs[dev.path].(carrier := carrier));
    }

    method SetState(ac: ActiveConnection, v: nat)
      requires Valid() && ac in acs
      modifies this`view, ac`past, ac`state
      ensures Valid() && view == S.WithConn(old(view), ac.path, old(view.conns[ac.path]).SetState(v))
    {
      ac.past := ac.past + [ac.state];
      ac.state := v;
      view := S.WithConn(view, ac.path, view.conns[ac.path].SetState(v));
    }

    method SetGone(ac: ActiveConnection)
      requires Valid() && ac in acs
      modifies this`view, ac`gone
      ensures Valid() && view == S.WithConn(old(view), ac.path, old(view.conns[ac.path]).(gone := true))
    {
      ac.gone := true;
      view := S.WithConn(view, ac.path, view.conns[ac.path].(gone := true));
    }

    method FinishBringUp(ac: ActiveConnection)
      requires Valid() && ac in acs
      modifies this`view, ac`pending
      ensures Valid() && view == S.WithConn(old(view), ac.path, old(view.conns[ac.path]).(pending := false))
    {
      ac.pending := false;
      view := S.WithConn(view, ac.path, view.conns[ac.path].(pending := false));
    }

    method SetIP4(ac: ActiveConnection, p: Path)
      requires Valid() && ac in acs
      modifies this`view, ac`ip4
      ensures Valid() && view == S.WithConn(old(view), ac.path, old(view.conns[ac.path]).(ip4 := p))
    {
      ac.ip4 := p;
      view := S.WithConn(view, ac.path, view.conns[ac.path].(ip4 := p));
    }

    /** The locked section that takes p out of the registry. */
    method Unregister(p: Path)
      requires Valid()
      modifies this`view, this`activeConns, this`primary
      ensures Valid() && view == S.Unregister(old(view), p)
    {
      activeConns := activeConns - {p};
      if primary == p { primary := NULL_PATH; }
      view := S.Unregister(view, p);
    }

    method NextPath() returns (p: Path)
      requires Valid()
      modifies this`view, this`acGen
      ensures Valid() && view == old(view).(acGen := old(view).acGen + 1) && p == acGen == old(acGen) + 1
    {
      acGen := acGen + 1;
      p := acGen;
      view := view.(acGen := acGen);
    }

    /** Inserts a new connection and exports it. */
    method Register(profile: Path, dev: Device, adopted: bool) returns (ac: ActiveConnection)
      requires Valid() && dev in devs
      modifies this`view, this`activeConns, this`acGen, this`acs
      ensures Valid() && view == S.Register(old(view), profile, dev.path, adopted, true)
      ensures acs == old(acs) + {ac} && ac.path == acGen && ac.device == dev && fresh(ac)
    {
      assert forall c <- acs :: c.path <= acGen;
      var p := NextPath();
      ac := new ActiveConnection(p, profile, dev, adopted);
      Enter(ac);
    }

    /** The locked section that puts a new connection into the registry. */
    method Enter(ac: ActiveConnection)
      requires Valid() && ac !in acs && ac.device in devs && 0 < ac.path <= acGen
      requires forall c <- acs :: c.path != ac.path
      modifies this`view, this`activeConns, this`acs
      ensures Valid() && acs == old(acs) + {ac}
      ensures view == S.WithConn(old(view), ac.path, ac.Abs()).(registry := old(view).registry + {ac.path})
    {
      Meet(ac);
      activeConns := activeConns[ac.path := ac];
      view := view.(registry := view.registry + {ac.path});
    }

    ghost method Meet(ac: ActiveConnection)
      requires Valid() && ac !in acs && ac.device in devs && 0 < ac.path <= acGen
      requires forall c <- acs :: c.path != ac.path
      modifies this`view, this`acs
      ensures Valid() && acs == old(acs) + {ac} && view == S.WithConn(old(view), ac.path, ac.Abs())
    {
      acs := acs + {ac};
      view := S.WithConn(view, ac.path, ac.Abs());
    }

    /** The same when the export fails: the connection is taken out again, only its path is used up. */
    method RegisterUnexported(profile: Path, dev: Device, adopted: bool)
      requires Valid() && dev in devs
      modifies this`view, this`activeConns, this`acGen
      ensures Valid() && view == S.Register(old(view), profile, dev.path, adopted, false)
    {
      assert acGen + 1 !in activeConns;
      var p := NextPath();
      var ac := new ActiveConnection(p, profile, dev, adopted);
      InsertAndRetract(ac);
    }

    /** The two locked sections around a failed export. */
    method InsertAndRetract(ac: ActiveConnection)
      requires Valid() && ac.path !in activeConns
      modifies this`activeConns
      ensures Valid() && activeConns == old(activeConns)
    {
      activeConns := activeConns[ac.path := ac];
      activeConns := activeConns - {ac.path};
      assert activeConns == old(activeConns);
    }

    method SetPrimary(p: Path)
      requires Valid()
      modifies this`view, this`primary
      ensures Valid() && view == old(view).(primary := p)
    {
      primary := p;
      view := view.(primary := p);
    }

    // ---- the operations ----------------------------------------------------------------------

    method Deactivate(ac: ActiveConnection)
      requires Valid() && ac in acs
      modifies this`activeConns, this`primary, this`view, ac, ac.device
      ensures Valid() && view == S.Deactivate(old(view), ac.path)
      ensures acs == old(acs) && devs == old(devs)
    {
      if ac.gone { return; }
      Retire(ac);
      ClearDevice(ac.device);
      Conclude(ac);
      assert view.conns == S.Deactivate(old(view), ac.path).conns;
      assert view.devs == S.Deactivate(old(view), ac.path).devs;
    }

    /** The part of deactivate that claims the teardown and announces it. */
    method Retire(ac: ActiveConnection)
      requires Valid() && ac in acs
      modifies this`view, ac`gone, ac`past, ac`state
      ensures Valid()
      ensures view == S.WithConn(old(view), ac.path,
        old(view.conns[ac.path]).(gone := true).SetState(S.AC_DEACTIVATING))
    {
      SetGone(ac);
      SetState(ac, S.AC_DEACTIVATING);
    }

    /** The part of deactivate that drops the connection and settles the device. */
    method Conclude(ac: ActiveConnection)
      requires Valid() && ac in acs
      modifies this`activeConns, this`primary, this`view, ac`past, ac`state, ac.device`state
      ensures Valid()
      ensures
        var u, d := S.Unregister(old(view), ac.path), ac.device.path;
        view == S.WithDev(S.WithConn(u, ac.path, u.conns[ac.path].SetState(S.AC_DEACTIVATED)), d,
          u.devs[d].(state := S.DEV_DISCONNECTED))
    {
      Unregister(ac.path);
      SetState(ac, S.AC_DEACTIVATED);
      SetDevState(ac.device, S.DEV_DISCONNECTED);
    }

    /** The part of deactivate that strips the device. */
    method ClearDevice(dev: Device)
      requires Valid() && dev in devs
      modifies this`view, dev`state, dev`activeConn, dev`activeAP, dev`ip4, dev`ip4obj
      ensures Valid() && view == S.WithDev(old(view), dev.path,
        S.Idle(old(view.devs[dev.path])).(state := S.DEV_DEACTIVATING))
    {
      SetDevState(dev, S.DEV_DEACTIVATING);
      Unbind(dev);
      SetIP4Config(dev, NULL_PATH);
    }

    method Unbind(dev: Device)
      requires Valid() && dev in devs
      modifies this`view, dev`activeConn, dev`activeAP
      ensures Valid()
      ensures
        var d := old(view.devs[dev.path]);
        view == S.WithDev(old(view), dev.path, d.(activeConn := NULL_PATH, activeAP := NULL_PATH))
    {
      SetActiveConnection(dev, NULL_PATH);
      SetActiveAP(dev, NULL_PATH);
    }

    method ActiveOn(dev: Device) returns (ac: ActiveConnection?)
      requires Valid() && dev in devs
      ensures ac == null <==> S.ActiveOn(view, dev.path) == NULL_PATH
      ensures ac != null ==> ac in acs && ac.path == S.ActiveOn(view, dev.path)
    {
      if dev.activeConn in activeConns { return activeConns[dev.activeConn]; }
      return null;
    }

    method Release(dev: Device)
      requires Valid() && dev in devs
      modifies this`activeConns, this`primary, this`view, acs, devs
      ensures Valid() && view == S.Release(old(view), dev.path)
      ensures acs == old(acs) && devs == old(devs)
    {
      var cur := ActiveOn(dev);
      if cur != null { Deactivate(cur); }
    }

    method Activate(profile: Path, dev: Device, exported: bool) returns (ac: ActiveConnection?)
      requires Valid() && dev in devs
      modifies this`activeConns, this`primary, this`view, this`acGen, this`acs, acs, devs
      ensures Valid() && view == S.Activate(old(view), profile, dev.path, exported)
      ensures if exported then ac != null && fresh(ac) && acs == old(acs) + {ac} else ac == null && acs == old(acs)
      ensures devs == old(devs)
    {
      Release(dev);
      if !exported {
        RegisterUnexported(profile, dev, false);
        return null;
      }
      ac := StartOn(profile, dev);
    }

    /** A new connection enters the registry and is bound to its device. */
    method StartOn(profile: Path, dev: Device) returns (ac: ActiveConnection)
      requires Valid() && dev in devs
      modifies this`activeConns, this`view, this`acGen, this`acs, dev`activeConn, dev`state
      ensures Valid() && fresh(ac) && acs == old(acs) + {ac}
      ensures
        var t := S.Register(old(view), profile, dev.path, false, true);
        view == S.Prepare(t, dev.path, t.acGen)
    {
      ac := Register(profile, dev, false);
      Prepare(dev, ac.path);
    }

    method Prepare(dev: Device, p: Path)
      requires Valid() && dev in devs
      modifies this`view, dev`activeConn, dev`state
      ensures Valid() && view == S.Prepare(old(view), dev.path, p)
    {
      SetActiveConnection(dev, p);
      SetDevState(dev, S.DEV_PREPARE);
    }

    /** One write of a bring-up that is still running, superseded or not. */
    method BringUpEffect(ac: ActiveConnection, e: S.Effect)
      requires Valid() && ac in acs
      modifies this`ipGen, this`view, ac`ip4, ac.device
      ensures Valid() && view == S.BringUpEffect(old(view), ac.path, e)
      ensures acs == old(acs) && devs == old(devs)
    {
      var dev := ac.device;
      match e {
        case SetConfig => if dev.kind.Wifi? { SetDevState(dev, S.DEV_CONFIG); }
        case SetIPConfig => if dev.kind.Wifi? || dev.kind.Ethernet? { SetDevState(dev, S.DEV_IP_CONFIG); }
        case SetAP(ap) => if dev.kind.Wifi? { SetActiveAP(dev, ap); }
        case ApplyLease(exported) => if dev.kind.Wifi? || dev.kind.Ethernet? { ApplyLease(ac, exported); }
      }
      assert view.devs == S.BringUpEffect(old(view), ac.path, e).devs;
    }

    /** The IP4Config that a lease makes, on device and connection. */
    method ApplyLease(ac: ActiveConnection, exported: bool)
      requires Valid() && ac in acs
      modifies this`ipGen, this`view, ac`ip4, ac.device
      ensures Valid()
      ensures view == S.Leased(old(view), ac.path, exported)
      ensures acs == old(acs) && devs == old(devs)
    {
      ipGen := ipGen + 1;
      view := view.(ipGen := ipGen);
      if exported { PublishLease(ac, ipGen); }
    }

    method PublishLease(ac: ActiveConnection, i: Path)
      requires Valid() && ac in acs
      modifies this`view, ac`ip4, ac.device`ip4obj, ac.device`ip4
      ensures Valid() && view == S.BindConnIP4(S.BindDevIP4(old(view), ac.device.path, i), ac.path, i)
    {
      SetIP4Config(ac.device, i);
      SetIP4(ac, i);
    }

    /** The rest of runActivation once bringUp has returned. */
    method Settle(ac: ActiveConnection, failed: bool, ctxDone: bool)
      requires Valid() && ac in acs
      modifies this`activeConns, this`primary, this`view, ac, ac.device
      ensures Valid() && view == S.Settle(old(view), ac.path, failed, ctxDone)
      ensures acs == old(acs) && devs == old(devs)
    {
      FinishBringUp(ac);
      if ctxDone || ac.gone { return; }
      var dev := ac.device;
      if failed || !S.Supported(dev.kind) {
        SetDevState(dev, S.DEV_FAILED);
        Deactivate(ac);
        return;
      }
      SetState(ac, S.AC_ACTIVATED);
      SetDevState(dev, S.DEV_ACTIVATED);
      SetPrimary(ac.path);
      assert view.conns == S.Settle(old(view), ac.path, failed, ctxDone).conns;
    }

    method AdoptWifi(dev: Device, emptySSID: bool, profile: Path, exported: bool)
      returns (ghost born: set<ActiveConnection>)
      requires Valid() && dev in devs
      modifies this`activeConns, this`primary, this`view, this`acGen, this`acs, dev`activeConn
      ensures Valid() && acs == old(acs) + born && fresh(born)
        && view == S.Adopt(old(view), dev.path, emptySSID, profile, exported)
      ensures devs == old(devs)
    {
      born := {};
      if emptySSID || dev.activeConn != NULL_PATH { return; }
      if !exported {
        RegisterUnexported(profile, dev, true);
        return;
      }
      var ac := AdoptNew(dev, profile);
      born := {ac};
    }

    method AdoptNew(dev: Device, profile: Path) returns (ac: ActiveConnection)
      requires Valid() && dev in devs
      modifies this`view, this`activeConns, this`acGen, this`acs, this`primary, dev`activeConn
      ensures Valid() && fresh(ac) && acs == old(acs) + {ac} && view == S.Adopted(old(view), dev.path, profile)
    {
      ac := Register(profile, dev, true);
      BindAdopted(dev, ac.path);
    }

    /** Binds an adopted connection to its device; it becomes primary if there is none. */
    method BindAdopted(dev: Device, p: Path)
      requires Valid() && dev in devs
      modifies this`view, this`primary, dev`activeConn
      ensures Valid()
      ensures view == S.Promoted(S.WithDev(old(view), dev.path, old(view.devs[dev.path]).(activeConn := p)), p)
    {
      SetActiveConnection(dev, p);
      PromoteIfFree(p);
    }

    method PromoteIfFree(p: Path)
      requires Valid()
      modifies this`view, this`primary
      ensures Valid() && view == S.Promoted(old(view), p)
    {
      assert NULL_PATH !in activeConns;
      if primary == NULL_PATH || primary !in activeConns { SetPrimary(p); }
    }

    method DropAdoptedWifi(dev: Device)
      requires Valid() && dev in devs
      modifies this`activeConns, this`primary, this`view, acs, dev`activeConn
      ensures Valid() && view == S.DropAdopted(old(view), dev.path)
      ensures acs == old(acs) && devs == old(devs)
    {
      var p := dev.activeConn;
      if p == NULL_PATH || p !in activeConns { return; }
      var ac := activeConns[p];
      if !ac.adopted { return; }
      Unregister(p);
      SetState(ac, S.AC_DEACTIVATED);
      SetActiveConnection(dev, NULL_PATH);
    }

    method OnWifiConnected(dev: Device, emptySSID: bool, ap: Path, profile: Path, exported: bool)
      returns (ghost born: set<ActiveConnection>)
      requires Valid() && dev in devs && dev.kind.Wifi?
      modifies this`activeConns, this`primary, this`view, this`acGen, this`acs, dev
      ensures Valid() && acs == old(acs) + born && fresh(born)
        && view == S.WifiEvent(old(view), dev.path, S.Connected(emptySSID, ap, profile, exported))
      ensures devs == old(devs)
    {
      ShowAssociated(dev, emptySSID, ap);
      born := AdoptWifi(dev, emptySSID, profile, exported);
    }

    method ShowAssociated(dev: Device, emptySSID: bool, ap: Path)
      requires Valid() && dev in devs
      modifies this`view, dev`state, dev`activeAP
      ensures Valid() && view == S.Associated(old(view), dev.path, emptySSID, ap)
    {
      SetDevState(dev, S.DEV_ACTIVATED);
      if !emptySSID { SetActiveAP(dev, ap); }
    }

    method OnWifiDisconnected(dev: Device)
      requires Valid() && dev in devs && dev.kind.Wifi?
      modifies this`activeConns, this`primary, this`view, acs, dev
      ensures Valid() && view == S.WifiEvent(old(view), dev.path, S.Disconnected)
      ensures acs == old(acs) && devs == old(devs)
    {
      DropAdoptedWifi(dev);
      SetDevState(dev, S.DEV_DISCONNECTED);
      SetActiveAP(dev, NULL_PATH);
    }

    method OnWifiEvent(iface: string, w: S.WifiChange) returns (ghost born: set<ActiveConnection>)
      requires Valid()
      modifies this`activeConns, this`primary, this`view, this`acGen, this`acs, acs, devs
      ensures Valid() && acs == old(acs) + born && fresh(born)
      ensures view == if iface in old(devByIface) then S.WifiEvent(old(view), old(devByIface[iface]).path, w)
        else old(view)
      ensures devs == old(devs)
    {
      born := {};
      if iface !in devByIface { return; }
      var dev := devByIface[iface];
      if !dev.kind.Wifi? { return; }
      born := OnWifiChange(dev, w);
    }

    method OnWifiChange(dev: Device, w: S.WifiChange) returns (ghost born: set<ActiveConnection>)
      requires Valid() && dev in devs && dev.kind.Wifi?
      modifies this`activeConns, this`primary, this`view, this`acGen, this`acs, acs, dev
      ensures Valid() && acs == old(acs) + born && fresh(born)
      ensures view == S.WifiEvent(old(view), dev.path, w)
      ensures devs == old(devs)
    {
      born := {};
      match w {
        case Connected(emptySSID, ap, profile, exported) =>
          born := OnWifiConnected(dev, emptySSID, ap, profile, exported);
        case Connecting => SetDevState(dev, S.DEV_CONFIG);
        case Disconnecting => SetDevState(dev, S.DEV_DEACTIVATING);
        case Disconnected => OnWifiDisconnected(dev);
      }
    }

    /** The filter loop over the device list. */
    method Filtered(d: Device) returns (kept: seq<Device>)
      ensures kept == Without(devices, d)
    {
      kept := [];
      for i := 0 to |devices|
        invariant kept == Without(devices[..i], d)
      {
        assert devices[..i + 1][..i] == devices[..i];
        if devices[i] != d { kept := kept + [devices[i]]; }
      }
      assert devices[..|devices|] == devices;
    }

    method RemoveLink(iface: string)
      requires Valid() && iface in devByIface
      modifies this`view, this`devices, this`devByIface
      ensures Valid() && view == old(view).(listed := old(view).listed - {iface})
      ensures devices == Without(old(devices), old(devByIface[iface]))
    {
      var kept := Filtered(devByIface[iface]);
      devices := kept;
      Delist(iface);
    }

    method Delist(iface: string)
      requires Valid()
      modifies this`view, this`devByIface
      ensures Valid() && view == old(view).(listed := old(view).listed - {iface})
    {
      devByIface := devByIface - {iface};
      view := view.(listed := view.listed - {iface});
    }

    method NewDevice(kind: S.Kind, carrier: bool) returns (d: Device)
      requires Valid()
      modifies this`view, this`devGen, this`devs
      ensures Valid() && fresh(d) && devs == old(devs) + {d} && view == S.AddDevice(old(view), kind, carrier)
      ensures d.path == devGen
    {
      assert forall x <- devs :: x.path <= devGen;
      devGen := devGen + 1;
      d := new Device(devGen, kind, carrier);
      devs := devs + {d};
      view := S.AddDevice(view, kind, carrier);
    }

    method AddLink(iface: string, kind: S.Kind, carrier: bool)
      requires Valid() && iface !in devByIface
      modifies this`view, this`devices, this`devByIface, this`devGen, this`devs
      ensures Valid() && view == S.LinkChange(old(view), iface, kind, carrier, true)
      ensures iface in devByIface && devices == old(devices) + [devByIface[iface]]
      ensures fresh(devByIface[iface]) && devs == old(devs) + {devByIface[iface]}
    {
      var d := NewDevice(kind, carrier);
      devices := devices + [d];
      devByIface := devByIface[iface := d];
      view := view.(listed := view.listed[iface := d.path]);
    }

    method OnLinkEvent(iface: string, kind: S.Kind, carrier: bool, up: bool)
      returns (ghost born: set<Device>)
      requires Valid()
      modifies this`view, this`devices, this`devByIface, this`devGen, this`devs, devs
      ensures Valid() && devs == old(devs) + born && fresh(born)
        && view == S.LinkChange(old(view), iface, kind, carrier, up)
      ensures acs == old(acs)
    {
      born := {};
      if !up {
        if iface in devByIface { RemoveLink(iface); }
        assert iface !in old(devByIface) ==> view.listed - {iface} == view.listed;
      } else if iface in devByIface {
        var _ := UpdateLink(devByIface[iface], carrier);
      } else {
        AddLink(iface, kind, carrier);
        born := {devByIface[iface]};
      }
    }

    method AddProfile() returns (q: Path)
      requires Valid()
      modifies this`profGen, this`profiles, this`view
      ensures Valid() && view == S.AddProfile(old(view)) && q == profGen
      ensures acs == old(acs) && devs == old(devs)
    {
      profGen := profGen + 1;
      profiles := profiles + {profGen};
      q := profGen;
      view := S.AddProfile(view);
    }

    /**
      first is the wired profile already stored, if any; added says whether a new one, which is
      stored either way, could be exported.
     */
    method AutoConnectWired(dev: Device, first: Path, added: bool, exported: bool)
      returns (ghost born: set<ActiveConnection>)
      requires Valid() && dev in devs
      modifies this`activeConns, this`primary, this`view, this`acGen, this`acs, this`profGen, this`profiles, acs, devs
      ensures Valid() && acs == old(acs) + born && fresh(born)
        && view == S.AutoConnect(old(view), dev.path, first, added, exported)
      ensures devs == old(devs)
    {
      born := {};
      if !dev.kind.Ethernet? || !dev.managed { return; }
      var skip := !dev.carrier || dev.activeConn != NULL_PATH || dev.autoWired;
      if !skip { SetAutoWired(dev, true); }
      if skip { return; }
      var q := first;
      if q == NULL_PATH { q := AddProfile(); }
      if first == NULL_PATH && !added {
        SetAutoWired(dev, false);
        assert view.devs == old(view).devs;
        return;
      }
      born := Attempt(dev, q, exported);
    }

    /** The activation of an automatic attempt, which gives the latch back if it fails. */
    method Attempt(dev: Device, q: Path, exported: bool) returns (ghost born: set<ActiveConnection>)
      requires Valid() && dev in devs
      modifies this`activeConns, this`primary, this`view, this`acGen, this`acs, acs, devs
      ensures Valid() && acs == old(acs) + born && fresh(born)
      ensures
        var v := S.Activate(old(view), q, dev.path, exported);
        view == if exported then v else S.WithDev(v, dev.path, v.devs[dev.path].(autoWired := false))
      ensures devs == old(devs)
    {
      var ac := Activate(q, dev, exported);
      born := if ac != null then {ac} else {};
      if !exported { SetAutoWired(dev, false); }
    }

    /** Delete of a stored profile; the users are visited in whatever order the map yields them. */
    method DeleteProfile(q: Path)
      requires Valid()
      modifies this`activeConns, this`primary, this`view, this`profiles, acs, devs
      ensures Valid() && view == S.DeleteProfile(old(view), q)
      ensures acs == old(acs) && devs == old(devs)
    {
      var users := UsersOf(q);
      forall p | p in users ensures S.Resolves(view, p) {
        assert view.conns[p] == activeConns[p].Abs();
      }
      DeactivateAll(users, activeConns);
      assert view.profiles == profiles;
      profiles := profiles - {q};
      view := view.(profiles := profiles);
    }

    method UsersOf(q: Path) returns (users: set<Path>)
      requires Valid()
      ensures users == S.Users(view, q)
    {
      users := {};
      var rest := activeConns.Keys;
      while rest != {}
        invariant rest <= activeConns.Keys
        invariant users == set p | p in activeConns.Keys - rest && activeConns[p].profile == q
        decreases rest
      {
        var p :| p in rest;
        rest := rest - {p};
        if activeConns[p].profile == q { users := users + {p}; }
      }
    }

    /** From s, exactly the connections ps were torn down. */
    ghost predicate TornTo(s: S.State, ps: set<Path>)
      reads this`view
    {
      ps <= s.conns.Keys && S.AllResolve(s, ps) && view == S.TearAll(s, ps)
    }

    /** objs holds the objects of ps. */
    ghost predicate Holds(objs: map<Path, ActiveConnection>, ps: set<Path>)
      reads this`acs
    {
      ps <= objs.Keys && forall p <- ps :: objs[p] in acs && objs[p].path == p
    }

    method DeactivateAll(users: set<Path>, objs: map<Path, ActiveConnection>)
      requires Valid() && Holds(objs, users) && users <= view.conns.Keys && S.AllResolve(view, users)
      modifies this`activeConns, this`primary, this`view, acs, devs
      ensures Valid() && TornTo(old(view), users) && acs == old(acs) && devs == old(devs)
    {
      var rest := users;
      S.TearNone(view);
      ghost var s := view;
      while rest != {}
        invariant Valid() && rest <= users && TornTo(s, users - rest) && acs == old(acs) && devs == old(devs)
        decreases rest
      {
        var p :| p in rest;
        TearNext(objs[p], s, users - rest);
        OneLess(users, rest, p);
        rest := rest - {p};
      }
      assert users - rest == users;
    }

    /** The loop body of DeactivateAll, after the connections in torn. */
    method TearNext(ac: ActiveConnection, ghost s: S.State, ghost torn: set<Path>)
      requires Valid() && ac in acs && TornTo(s, torn) && ac.path !in torn && S.Resolves(s, ac.path)
      modifies this`activeConns, this`primary, this`view, ac, ac.device
      ensures Valid() && TornTo(s, torn + {ac.path}) && acs == old(acs) && devs == old(devs)
    {
      S.TearOneMore(s, torn, ac.path);
      Deactivate(ac);
    }
  }

  lemma OneLess<T>(all: set<T>, rest: set<T>, x: T)
    requires x in rest && rest <= all
    ensures all - (rest - {x}) == all - rest + {x}
  {}

  /** The bijection on the objects themselves, whenever the abstract state satisfies the invariant. */
  lemma ObjectsInBijection(m: Manager)
    requires m.Valid() && S.Inv(m.view)
    ensures forall p <- m.activeConns :: !m.activeConns[p].gone && m.activeConns[p].device.activeConn == p
    ensures forall d <- m.devs :: d.activeConn != NULL_PATH ==>
              d.activeConn in m.activeConns && m.activeConns[d.activeConn].device == d
    ensures m.primary == NULL_PATH || m.primary in m.activeConns
  {
    forall p | p in m.activeConns ensures !m.activeConns[p].gone && m.activeConns[p].device.activeConn == p {
      var c := m.activeConns[p];
      assert m.view.conns[p] == c.Abs() && m.view.devs[c.device.path] == c.device.Abs();
    }
    forall d | d in m.devs && d.activeConn != NULL_PATH
      ensures d.activeConn in m.activeConns && m.activeConns[d.activeConn].device == d
    {
      assert m.view.devs[d.path] == d.Abs();
      var c := m.activeConns[d.activeConn];
      assert m.view.conns[d.activeConn] == c.Abs();
    }
  }

  /** What the filter loop of onLinkEvent keeps: every other device, in order. */
  function Without(ds: seq<Device>, d: Device): seq<Device> {
    if ds == [] then [] else
      Without(ds[..|ds| - 1], d) + (if ds[|ds| - 1] == d then [] else [ds[|ds| - 1]])
  }
}
