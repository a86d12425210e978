/**
  When the claims that fail one critical section at a time do hold: `primary` as long as no dead
  connection is published, and the bijection with the devices as soon as the operations on one
  device do not overlap, however operations on different devices interleave.
 */
module LockSerial {
  import opened Common
  import opened LockSteps

  predicate PrimaryGood(s: State) { s.primary == NULL_PATH || s.primary in s.registry }

  // ---- primary, over every run ---------------------------------------------------------------------

  /** The path a goroutine has created or is about to publish. */
  function Owned(pc: Pc): Option<Path> {
    match pc
    case Insert(_, p, _) => Some(p)
    case Export(_, p, _) => Some(p)
    case Retract(p) => Some(p)
    case Bind(_, p, _) => Some(p)
    case PromoteIfFree(p) => Some(p)
    case Check(p) => Some(p)
    case Promote(p) => Some(p)
    case _ => None
  }

  predicate Unpublished(pc: Pc) { pc.Insert? || pc.Export? || pc.Retract? || pc.Bind? }

  predicate OwnsOne(s: State, pc: Pc) {
    Owned(pc).Some? ==> 0 < Owned(pc).value <= s.acGen && (Unpublished(pc) ==> Owned(pc).value != s.primary)
  }

  /** A path has one owner at a time, and is not primary before its owner has bound it. */
  ghost predicate OwnerInv(s: State) {
    && s.primary <= s.acGen
    && (forall t | 0 <= t < |s.threads| :: OwnsOne(s, s.threads[t]) && Plain(s.threads[t]))
    && (forall t, u | 0 <= t < u < |s.threads| && Owned(s.threads[t]).Some? ::
          Owned(s.threads[t]) != Owned(s.threads[u]))
  }

  lemma OwnedNext(s: State, pc: Pc, outcome: Outcome)
    requires Plain(pc)
    ensures
      var pc' := NextPc(s, pc, outcome);
      && (pc.Allocate? ==> Owned(pc') == Some(s.acGen + 1))
      && (!pc.Allocate? ==> Owned(pc').None? || Owned(pc') == Owned(pc))
      && (Unpublished(pc') ==> pc.Allocate? || Unpublished(pc))
      && (Started(pc) != [] ==> pc'.Done? && Owned(Started(pc)[0]) == Owned(pc))
  {}

  lemma OwnerWrites(s: State, pc: Pc)
    ensures
      var s' := Writes(s, pc);
      && s'.acGen == (if pc.Allocate? then s.acGen + 1 else s.acGen)
      && (s'.primary == s.primary || s'.primary == NULL_PATH
          || ((pc.Promote? || pc.PromoteIfFree?) && s'.primary == pc.p))
  {}

  lemma OwnerStep(s: State, e: Event)
    requires OwnerInv(s) && Enabled(s, e)
    ensures OwnerInv(Step(s, e))
  {
    if e.Move? {
      var s', pc := Step(s, e), s.threads[e.t];
      assert Plain(pc) && OwnsOne(s, pc);
      OwnedNext(s, pc, e.outcome);
      OtherPc(s, pc, e.outcome);
      OwnerWrites(s, pc);
      assert Moved(s, e.t, s') && s'.threads[e.t] == NextPc(s, pc, e.outcome);
      if |s'.threads| > |s.threads| {
        assert s'.threads[|s.threads|] == Started(pc)[0];
      }
    }
  }

  /** The section about to run publishes a connection that is not registered. */
  predicate PublishesDead(s: State, e: Event)
    requires Enabled(s, e)
  {
    e.Move? &&
      match s.threads[e.t]
      case Promote(p) => p !in s.registry
      case PromoteIfFree(p) => p !in s.registry && s.primary !in s.registry
      case _ => false
  }

  /** Exactly such a section spoils `primary`. */
  lemma PrimaryStep(s: State, e: Event)
    requires OwnerInv(s) && PrimaryGood(s) && Enabled(s, e)
    ensures PrimaryGood(Step(s, e)) <==> !PublishesDead(s, e)
  {
    if e.Move? {
      assert OwnsOne(s, s.threads[e.t]);
    }
  }

  /** `primary` is good in every state of the run. */
  ghost predicate AlwaysGood(s: State, es: seq<Event>)
    decreases |es|
  {
    PrimaryGood(s) && (es != [] && Enabled(s, es[0]) ==> AlwaysGood(Step(s, es[0]), es[1..]))
  }

  ghost predicate NeverDead(s: State, es: seq<Event>)
    decreases |es|
  {
    es != [] && Enabled(s, es[0]) ==> !PublishesDead(s, es[0]) && NeverDead(Step(s, es[0]), es[1..])
  }

  lemma {:induction false} PrimaryFrom(s: State, es: seq<Event>)
    requires OwnerInv(s) && PrimaryGood(s)
    ensures AlwaysGood(s, es) <==> NeverDead(s, es)
    decreases |es|
  {
    if es != [] && Enabled(s, es[0]) {
      PrimaryStep(s, es[0]);
      OwnerStep(s, es[0]);
      if PrimaryGood(Step(s, es[0])) {
        PrimaryFrom(Step(s, es[0]), es[1..]);
      }
    }
  }

  /** Over any run, `primary` is null or registered throughout exactly if no section publishes a dead connection. */
  lemma PrimaryExactly(es: seq<Event>)
    ensures AlwaysGood(INIT, es) <==> NeverDead(INIT, es)
  {
    PrimaryFrom(INIT, es);
  }

  // ---- operations that do not overlap -----------------------------------------------------------------

  /** The device that a goroutine works on, or will when its operation starts. */
  function Site(s: State, pc: Pc): Option<nat> {
    match pc
    case Done => None
    case ReadBinding(d) => Some(d)
    case Lookup(d, _) => Some(d)
    case Allocate(d, _) => Some(d)
    case Insert(d, _, _) => Some(d)
    case Export(d, _, _) => Some(d)
    case Bind(d, _, _) => Some(d)
    case Busy(d) => Some(d)
    case ReadAdopted(d) => Some(d)
    case Drop(d, _) => Some(d)
    case Unbind(d) => Some(d)
    case Retract(p) => DeviceOf(s, p)
    case Check(p) => DeviceOf(s, p)
    case Promote(p) => DeviceOf(s, p)
    case Find(p) => DeviceOf(s, p)
    case Claim(p, _) => DeviceOf(s, p)
    case Teardown(p, _) => DeviceOf(s, p)
    case Remove(p, _) => DeviceOf(s, p)
    case PromoteIfFree(p) => DeviceOf(s, p)
  }

  function DeviceOf(s: State, p: Path): Option<nat> { if p in s.device then Some(s.device[p]) else None }

  /** In the middle of an operation: not before its first section, after its last, or in a bring-up. */
  predicate Working(pc: Pc) { !pc.Done? && !Entry(pc) && !pc.Check? }

  predicate WorkingOn(s: State, pc: Pc, d: nat) { Working(pc) && Site(s, pc) == Some(d) }

  /** An operation starts only while no other one is in progress on its device. */
  predicate Polite(s: State, e: Event)
    requires Enabled(s, e)
  {
    e.Move? && !Working(s.threads[e.t]) && Site(s, s.threads[e.t]).Some? ==>
      Quiet(s, Site(s, s.threads[e.t]).value)
  }

  /** No operation is in progress on device d. */
  predicate Quiet(s: State, d: nat) {
    forall t :: 0 <= t < |s.threads| ==> !WorkingOn(s, s.threads[t], d)
  }

  ghost predicate PoliteRun(s: State, es: seq<Event>, s': State)
    decreases |es|
  {
    if es == [] then s' == s
    else Enabled(s, es[0]) && Polite(s, es[0]) && PoliteRun(Step(s, es[0]), es[1..], s')
  }

  predicate On(s: State, d: nat, p: Path) { p in s.device && s.device[p] == d }

  ghost predicate NoneOn(s: State, d: nat) { forall q :: On(s, d, q) ==> q !in s.registry }

  ghost predicate OnlyOn(s: State, d: nat, p: Path) {
    On(s, d, p) && p in s.registry && forall q :: On(s, d, q) && q in s.registry ==> q == p
  }

  ghost predicate Free(s: State, d: nat) { NoneOn(s, d) && BoundTo(s, d) == NULL_PATH }

  /** Device d carries p, and p only. */
  ghost predicate Held(s: State, d: nat, p: Path) { OnlyOn(s, d, p) && BoundTo(s, d) == p && p !in s.gone }

  /** Registry and devices agree on d. */
  ghost predicate Settled(s: State, d: nat) { Free(s, d) || Held(s, d, BoundTo(s, d)) }

  /** p is registered but neither bound nor published yet. */
  ghost predicate Fresh(s: State, d: nat, p: Path) {
    OnlyOn(s, d, p) && BoundTo(s, d) == NULL_PATH && p !in s.gone && p != s.primary
  }

  predicate Resumes(d: nat, k: Pc) { k.Done? || k == Allocate(d, false) }

  /** How an operation in progress on d leaves d between its sections. */
  ghost predicate Stage(s: State, d: nat, pc: Pc) {
    match pc
    case Lookup(_, p) => Held(s, d, p)
    case Claim(p, k) => Held(s, d, p) && Resumes(d, k)
    case Teardown(p, k) => OnlyOn(s, d, p) && p in s.gone && Resumes(d, k)
    case Remove(p, k) => OnlyOn(s, d, p) && p in s.gone && BoundTo(s, d) == NULL_PATH && Resumes(d, k)
    case Allocate(_, _) => Free(s, d)
    case Insert(_, p, _) => Free(s, d) && p !in s.inserted && 0 < p <= s.acGen
    case Export(_, p, a) => Fresh(s, d, p) && (p in s.adopted <==> a)
    case Bind(_, p, a) => Fresh(s, d, p) && (p in s.adopted <==> a)
    case Retract(p) => Fresh(s, d, p)
    case Promote(p) => Held(s, d, p)
    case PromoteIfFree(p) => Held(s, d, p)
    case Drop(_, p) => Held(s, d, p)
    case Unbind(_) => NoneOn(s, d)
    case _ => false
  }

  /** A bring-up that is not dead yet belongs to the connection its device carries. */
  ghost predicate Waits(s: State, d: nat, p: Path) {
    && On(s, d, p) && p !in s.adopted
    && (p !in s.gone ==> p in s.registry && BoundTo(s, d) == p)
  }

  /** What holds on the device of a goroutine when it is its turn. */
  ghost predicate Home(s: State, d: nat, pc: Pc) {
    if Working(pc) then Stage(s, d, pc) else Settled(s, d) && (pc.Check? ==> Waits(s, d, pc.p))
  }

  ghost predicate Globals(s: State) {
    && s.registry <= s.inserted && s.gone <= s.inserted && s.adopted <= s.inserted && s.device.Keys == s.inserted
    && (forall p <- s.inserted :: 0 < p <= s.acGen)
    && PrimaryGood(s)
  }

  lemma GlobalsStep(s: State, d: nat, pc: Pc)
    requires Globals(s) && Site(s, pc) == Some(d) && Home(s, d, pc)
    ensures Globals(Writes(s, pc))
  {
  }

  /** One section, seen from the device it works on. */
  lemma HomeStep(s: State, d: nat, pc: Pc, outcome: Outcome)
    requires Globals(s) && Site(s, pc) == Some(d) && Home(s, d, pc)
    ensures
      var s', pc' := Writes(s, pc), NextPc(s, pc, outcome);
      && Home(s', d, pc') && (Site(s', pc') == Some(d) || pc'.Done?)
      && (Started(pc) != [] ==> Waits(s', d, pc.p) && Started(pc) == [Check(pc.p)])
  {
    if Working(pc) {
      WorkStep(s, d, pc, outcome);
    } else {
      FirstStep(s, d, pc, outcome);
    }
  }

  lemma FirstStep(s: State, d: nat, pc: Pc, outcome: Outcome)
    requires Globals(s) && Site(s, pc) == Some(d) && Home(s, d, pc) && !Working(pc)
    ensures
      var pc' := NextPc(s, pc, outcome);
      Writes(s, pc) == s && Started(pc) == [] && Home(s, d, pc') && (Site(s, pc') == Some(d) || pc'.Done?)
  {
  }

  lemma WorkStep(s: State, d: nat, pc: Pc, outcome: Outcome)
    requires Globals(s) && Site(s, pc) == Some(d) && Stage(s, d, pc) && Working(pc)
    ensures
      var s', pc' := Writes(s, pc), NextPc(s, pc, outcome);
      && Home(s', d, pc') && (Site(s', pc') == Some(d) || pc'.Done?)
      && (Started(pc) != [] ==> Waits(s', d, pc.p) && Started(pc) == [Check(pc.p)])
  {
  }

  // ---- the other devices --------------------------------------------------------------------------------

  /** Nothing about device e changed, and no connection of e was published. */
  ghost predicate SameOn(s: State, s': State, e: nat) {
    && BoundTo(s', e) == BoundTo(s, e)
    && (forall p :: On(s', e, p) <==> On(s, e, p))
    && (forall p :: On(s, e, p) ==>
          (p in s'.registry <==> p in s.registry) && (p in s'.gone <==> p in s.gone)
            && (p in s'.adopted <==> p in s.adopted))
    && (s'.primary != s.primary && s'.primary != NULL_PATH ==> !On(s, e, s'.primary))
    && s.acGen <= s'.acGen
  }

  lemma Elsewhere(s: State, d: nat, pc: Pc, e: nat)
    requires Globals(s) && Site(s, pc) == Some(d) && Home(s, d, pc) && e != d
    ensures SameOn(s, Writes(s, pc), e)
  {
  }

  /** So what held on the home of another goroutine still holds. */
  lemma HomeStays(s: State, s': State, e: nat, pc: Pc)
    requires Globals(s) && SameOn(s, s', e) && Home(s, e, pc) && (pc.Insert? ==> pc.p !in s'.inserted)
    ensures Home(s', e, pc)
  {
  }

  /** A waiting bring-up is not disturbed by its neighbours either, on its own device or elsewhere. */
  lemma WaitsStays(s: State, d: nat, pc: Pc, q: Path)
    requires Globals(s) && Site(s, pc) == Some(d) && Home(s, d, pc) && Waits(s, d, q)
    ensures Waits(Writes(s, pc), d, q)
  {
  }

  /** The program counters are no part of what holds on a device. */
  lemma ThreadsApart(s: State, ths: seq<Pc>, d: nat, pc: Pc)
    ensures
      var s' := s.(threads := ths);
      && Site(s', pc) == Site(s, pc) && (Home(s', d, pc) <==> Home(s, d, pc)) && (Globals(s') <==> Globals(s))
      && (Settled(s', d) <==> Settled(s, d)) && (pc.Check? ==> (Waits(s', d, pc.p) <==> Waits(s, d, pc.p)))
  {
  }

  // ---- runs ------------------------------------------------------------------------------------------------

  /** What a goroutine can rely on, whoever else is at work. */
  ghost predicate Ready(s: State, pc: Pc) {
    && (Working(pc) ==> Site(s, pc).Some? && Stage(s, Site(s, pc).value, pc))
    && (pc.Check? ==> pc.p in s.device && Waits(s, s.device[pc.p], pc.p))
  }

  ghost predicate SerialInv(s: State) {
    && RegistryInv(s) && Globals(s)
    && (forall t | 0 <= t < |s.threads| :: Ready(s, s.threads[t]))
    && (forall t, u | 0 <= t < u < |s.threads| && Working(s.threads[t]) && Working(s.threads[u]) ::
          Site(s, s.threads[t]) != Site(s, s.threads[u]))
    && (forall d :: Quiet(s, d) ==> Settled(s, d))
  }

  /** When it is its turn, a polite goroutine finds its device as it left it, or settled. */
  lemma AtHome(s: State, t: nat, outcome: Outcome)
    requires SerialInv(s) && t < |s.threads| && Polite(s, Move(t, outcome)) && Site(s, s.threads[t]).Some?
    ensures Home(s, Site(s, s.threads[t]).value, s.threads[t])
    ensures forall u | 0 <= u < |s.threads| && u != t :: !WorkingOn(s, s.threads[u], Site(s, s.threads[t]).value)
  {
    var pc := s.threads[t];
    var d := Site(s, pc).value;
    assert Ready(s, pc);
    if !Working(pc) {
      assert Quiet(s, d);
    } else {
      forall u | 0 <= u < |s.threads| && u != t ensures !WorkingOn(s, s.threads[u], d) {
        assert u < t || t < u;
      }
    }
  }

  /** What any other goroutine relied on still holds after the section. */
  lemma OtherReady(s: State, d: nat, pc: Pc, s': State, other: Pc)
    requires Globals(s) && Site(s, pc) == Some(d) && Home(s, d, pc) && s' == Writes(s, pc).(threads := s'.threads)
    requires Ready(s, other) && !WorkingOn(s, other, d) && (other.Insert? ==> other.p !in s'.inserted)
    ensures Ready(s', other) && (Working(other) ==> Site(s', other) == Site(s, other))
  {
    var w := Writes(s, pc);
    if Working(other) {
      var e := Site(s, other).value;
      Elsewhere(s, d, pc, e);
      HomeStays(s, w, e, other);
      ThreadsApart(w, s'.threads, e, other);
      SiteStays(s, d, pc, other);
    } else if other.Check? {
      var e := s.device[other.p];
      SiteStays(s, d, pc, other);
      if e == d {
        WaitsStays(s, d, pc, other.p);
      } else {
        Elsewhere(s, d, pc, e);
      }
      ThreadsApart(w, s'.threads, e, other);
    }
  }

  lemma SiteStays(s: State, d: nat, pc: Pc, other: Pc)
    requires Globals(s) && Site(s, pc) == Some(d) && Home(s, d, pc) && Site(s, other).Some?
    ensures Site(Writes(s, pc), other) == Site(s, other)
  {
  }

  /** The goroutine itself, and the bring-up it may have started. */
  lemma OwnReady(s: State, d: nat, pc: Pc, outcome: Outcome, s': State)
    requires Globals(s) && Site(s, pc) == Some(d) && Home(s, d, pc) && s' == Writes(s, pc).(threads := s'.threads)
    ensures
      var pc' := NextPc(s, pc, outcome);
      && Globals(s') && Ready(s', pc') && (Site(s', pc') == Some(d) || pc'.Done?)
      && (!Working(pc') ==> Settled(s', d)) && (Started(pc) != [] ==> Ready(s', Started(pc)[0]))
  {
    var w, pc' := Writes(s, pc), NextPc(s, pc, outcome);
    GlobalsStep(s, d, pc);
    HomeStep(s, d, pc, outcome);
    ThreadsApart(w, s'.threads, d, pc');
    if Started(pc) != [] {
      ThreadsApart(w, s'.threads, d, Started(pc)[0]);
    }
  }

  /** Where nothing is in progress after the section, all is settled. */
  lemma QuietSettled(s: State, t: nat, outcome: Outcome, s': State, e: nat)
    requires SerialInv(s) && t < |s.threads| && Polite(s, Move(t, outcome)) && s' == Section(s, t, outcome)
    requires Site(s, s.threads[t]).Some? && Quiet(s', e)
    ensures Settled(s', e)
  {
    var pc, d := s.threads[t], Site(s, s.threads[t]).value;
    AtHome(s, t, outcome);
    OwnReady(s, d, pc, outcome, s');
    assert s'.threads[t] == NextPc(s, pc, outcome);
    if e == d {
      assert !WorkingOn(s', s'.threads[t], d);
    } else {
      forall u | 0 <= u < |s.threads| ensures !WorkingOn(s, s.threads[u], e) {
        if u != t && Working(s.threads[u]) {
          assert Ready(s, s.threads[u]);
          SiteStays(s, d, pc, s.threads[u]);
          ThreadsApart(Writes(s, pc), s'.threads, d, s.threads[u]);
          assert s'.threads[u] == s.threads[u] && !WorkingOn(s', s'.threads[u], e);
        }
      }
      assert Quiet(s, e);
      Elsewhere(s, d, pc, e);
      ThreadsApart(Writes(s, pc), s'.threads, e, Done);
    }
  }

  /** A polite section keeps the devices serial. */
  lemma SectionSerial(s: State, t: nat, outcome: Outcome)
    requires SerialInv(s) && t < |s.threads| && Polite(s, Move(t, outcome)) && Site(s, s.threads[t]).Some?
    ensures SerialInv(Section(s, t, outcome))
  {
    var s', pc, d := Section(s, t, outcome), s.threads[t], Site(s, s.threads[t]).value;
    RegistryStep(s, Move(t, outcome));
    AtHome(s, t, outcome);
    OwnReady(s, d, pc, outcome, s');
    assert Moved(s, t, s') && s'.threads[t] == NextPc(s, pc, outcome);
    forall u | 0 <= u < |s.threads| && u != t
      ensures Ready(s', s.threads[u]) && (Working(s.threads[u]) ==> Site(s', s.threads[u]) == Site(s, s.threads[u]))
    {
      assert s'.threads[u] == s.threads[u];
      OtherReady(s, d, pc, s', s.threads[u]);
    }
    forall e | Quiet(s', e) ensures Settled(s', e) {
      QuietSettled(s, t, outcome, s', e);
    }
  }

  lemma SerialStep(s: State, e: Event)
    requires SerialInv(s) && Enabled(s, e) && Polite(s, e)
    ensures SerialInv(Step(s, e))
  {
    if e.Move? && Site(s, s.threads[e.t]).Some? {
      SectionSerial(s, e.t, e.outcome);
    } else {
      IdleStep(s, e);
    }
  }

  /** A new goroutine, or a section of one with nothing to do. */
  lemma IdleStep(s: State, e: Event)
    requires SerialInv(s) && Enabled(s, e) && (e.Move? ==> Site(s, s.threads[e.t]).None?)
    ensures SerialInv(Step(s, e))
  {
    var s' := Step(s, e);
    if e.Move? {
      assert Ready(s, s.threads[e.t]);
      assert s' == s.(threads := s.threads[e.t := Done]);
    }
    Rethread(s, s'.threads);
  }

  /** A goroutine that relies on nothing. */
  predicate Inert(pc: Pc) { !Working(pc) && !pc.Check? }

  /** Goroutines that rely on nothing came and went, the others stayed. */
  ghost predicate Rethreaded(s: State, ths: seq<Pc>) {
    && |s.threads| <= |ths|
    && (forall t :: 0 <= t < |ths| ==> Inert(ths[t]) || (t < |s.threads| && ths[t] == s.threads[t]))
    && (forall t :: 0 <= t < |s.threads| && Working(s.threads[t]) ==> ths[t] == s.threads[t])
  }

  lemma Rethread(s: State, ths: seq<Pc>)
    requires SerialInv(s) && Rethreaded(s, ths)
    ensures SerialInv(s.(threads := ths))
  {
    var s' := s.(threads := ths);
    RegistryStill(s, ths);
    ThreadsApart(s, ths, 0, Done);
    forall t | 0 <= t < |ths| ensures Ready(s', ths[t]) {
      StillReady(s, ths, t);
    }
    forall t, u | 0 <= t < u < |ths| && Working(ths[t]) && Working(ths[u])
      ensures Site(s', ths[t]) != Site(s', ths[u])
    {
      StillReady(s, ths, t);
      StillReady(s, ths, u);
    }
    forall d | Quiet(s', d) ensures Settled(s', d) {
      QuietStill(s, ths, d);
    }
  }

  lemma RegistryStill(s: State, ths: seq<Pc>)
    requires RegistryInv(s) && Rethreaded(s, ths)
    ensures RegistryInv(s.(threads := ths))
  {
  }

  lemma StillReady(s: State, ths: seq<Pc>, t: nat)
    requires SerialInv(s) && Rethreaded(s, ths) && t < |ths|
    ensures
      var s', pc := s.(threads := ths), ths[t];
      Ready(s', pc) && (Working(pc) ==> t < |s.threads| && s.threads[t] == pc && Site(s', pc) == Site(s, pc))
  {
    if !Inert(ths[t]) {
      assert Ready(s, ths[t]);
      ThreadsApart(s, ths, Site(s, ths[t]).value, ths[t]);
    }
  }

  lemma QuietStill(s: State, ths: seq<Pc>, d: nat)
    requires SerialInv(s) && Rethreaded(s, ths) && Quiet(s.(threads := ths), d)
    ensures Settled(s.(threads := ths), d)
  {
    ThreadsApart(s, ths, d, Done);
    forall u | 0 <= u < |s.threads| ensures !WorkingOn(s, s.threads[u], d) {
      if Working(s.threads[u]) {
        assert !WorkingOn(s.(threads := ths), ths[u], d);
        StillReady(s, ths, u);
      }
    }
    assert Quiet(s, d);
  }

  /** In progress or not, a device carries one connection at most. */
  lemma OneEach(s: State, p: Path, q: Path)
    requires SerialInv(s) && p in s.registry && q in s.registry && s.device[p] == s.device[q]
    ensures p == q
  {
    var d := s.device[p];
    assert On(s, d, p) && On(s, d, q);
    if Quiet(s, d) {
      assert Settled(s, d);
    } else {
      var t :| 0 <= t < |s.threads| && WorkingOn(s, s.threads[t], d);
      assert Ready(s, s.threads[t]);
    }
  }

  lemma {:induction false} SerialFrom(s: State, es: seq<Event>, s': State)
    requires SerialInv(s) && PoliteRun(s, es, s')
    ensures SerialInv(s')
    decreases |es|
  {
    if es != [] {
      SerialStep(s, es[0]);
      SerialFrom(Step(s, es[0]), es[1..], s');
    }
  }

  /**
    In every run in which no operation starts while another is in progress on its device:
    `primary` is null or registered, no device carries two connections, and wherever no operation
    is in progress the registry and the devices are in bijection.
   */
  lemma SerialRuns(es: seq<Event>, s: State)
    requires PoliteRun(INIT, es, s)
    ensures PrimaryGood(s) && s.registry <= s.device.Keys
    ensures forall p, q | p in s.registry && q in s.registry && s.device[p] == s.device[q] :: p == q
    ensures forall p <- s.registry :: Quiet(s, s.device[p]) ==> p !in s.gone && BoundTo(s, s.device[p]) == p
    ensures forall d :: Quiet(s, d) && BoundTo(s, d) != NULL_PATH ==>
              BoundTo(s, d) in s.registry && s.device[BoundTo(s, d)] == d
  {
    SerialFrom(INIT, es, s);
    forall p, q | p in s.registry && q in s.registry && s.device[p] == s.device[q] ensures p == q {
      OneEach(s, p, q);
    }
  }
}
