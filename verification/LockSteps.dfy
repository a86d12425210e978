/**
  The activation code one critical section at a time: any number of goroutines inside activate,
  deactivate, runActivation, adoptWifi and dropAdoptedWifi, interleaved in any order.

  Two claims survive at this granularity (TeardownOnce, NeverReenters).  Two others need the
  coarser steps of ActivationSpec, and each is refuted here by a run.
 */
module LockSteps {
  import opened Common

  /** What a goroutine does next. */
  datatype Pc =
    | Done
    // activate
    | ReadBinding(d: nat)                  // activeOn: dev.mu
    | Lookup(d: nat, cur: Path)            // activeOn: m.mu
    | Allocate(d: nat, adopted: bool)      // acGen.next
    | Insert(d: nat, p: Path, adopted: bool)
    | Export(d: nat, p: Path, adopted: bool)
    | Retract(p: Path)                     // the export failed: m.mu
    | Bind(d: nat, p: Path, adopted: bool) // setActiveConnection: dev.mu
    // runActivation, once bringUp has returned
    | Check(p: Path)                       // superseded: m.mu
    | Promote(p: Path)                     // primary = ac.path: m.mu
    // deactivate
    | Find(p: Path)                        // DeactivateConnection: m.mu
    | Claim(p: Path, resume: Pc)             // test and set gone: m.mu
    | Teardown(p: Path, resume: Pc)          // the unlocked writes
    | Remove(p: Path, resume: Pc)            // m.mu
    // adoptWifi and dropAdoptedWifi
    | Busy(d: nat)                         // d.mu
    | PromoteIfFree(p: Path)               // m.mu
    | ReadAdopted(d: nat)                  // d.mu
    | Drop(d: nat, p: Path)                // m.mu
    | Unbind(d: nat)                       // d.mu

  datatype State = State(
    registry: set<Path>, device: map<Path, nat>, adopted: set<Path>, gone: set<Path>,
    binding: map<nat, Path>, primary: Path, acGen: nat, threads: seq<Pc>,
    inserted: set<Path>, removed: set<Path>,  // who ever entered and left the registry
    teardowns: multiset<Path>)                // how often each teardown body ran

  const INIT := State({}, map[], {}, {}, map[], NULL_PATH, 0, [], {}, {}, multiset{})

  /** What the environment decides inside a section: an export, a bring-up, or a cancelled context. */
  datatype Outcome = Good | Bad | Cancelled

  datatype Event = Spawn(pc: Pc) | Move(t: nat, outcome: Outcome)

  /** The entry points. */
  predicate Entry(pc: Pc) { pc.ReadBinding? || pc.Find? || pc.Busy? || pc.ReadAdopted? }

  function BoundTo(s: State, d: nat): Path {
    if d in s.binding then s.binding[d] else NULL_PATH
  }

  /** Where the goroutine goes after its section. */
  function NextPc(s: State, pc: Pc, outcome: Outcome): Pc {
    match pc
    case ReadBinding(d) => if BoundTo(s, d) == NULL_PATH then Allocate(d, false) else Lookup(d, BoundTo(s, d))
    case Lookup(d, cur) => if cur in s.registry then Claim(cur, Allocate(d, false)) else Allocate(d, false)
    case Allocate(d, a) => Insert(d, s.acGen + 1, a)
    case Insert(d, p, a) => Export(d, p, a)
    case Export(d, p, a) => if outcome.Good? then Bind(d, p, a) else Retract(p)
    case Bind(d, p, a) => if a then PromoteIfFree(p) else Done
    case Check(p) =>
      if outcome.Cancelled? || p in s.gone then Done else if outcome.Good? then Promote(p) else Claim(p, Done)
    case Find(p) => if p in s.registry then Claim(p, Done) else Done
    case Claim(p, k) => if p in s.gone then k else Teardown(p, k)
    case Teardown(p, k) => Remove(p, k)
    case Remove(p, k) => k
    case Busy(d) => if BoundTo(s, d) == NULL_PATH then Allocate(d, true) else Done
    case ReadAdopted(d) => if BoundTo(s, d) == NULL_PATH then Done else Drop(d, BoundTo(s, d))
    case Drop(d, p) => if p in s.registry && p in s.adopted then Unbind(d) else Done
    case Done => Done
    case Retract(_) => Done
    case Promote(_) => Done
    case PromoteIfFree(_) => Done
    case Unbind(_) => Done
  }

  /** Taking p out of the registry; the lock also covers the primary, except after a failed export. */
  function Leave(s: State, p: Path, primaryToo: bool): State {
    s.(registry := s.registry - {p},
       removed := if p in s.registry then s.removed + {p} else s.removed,
       primary := if primaryToo && s.primary == p then NULL_PATH else s.primary)
  }

  /** What the section writes. */
  function Writes(s: State, pc: Pc): State {
    match pc
    case Allocate(_, _) => s.(acGen := s.acGen + 1)
    case Insert(d, p, a) =>
      s.(registry := s.registry + {p}, inserted := s.inserted + {p}, device := s.device[p := d],
         adopted := if a then s.adopted + {p} else s.adopted)
    case Retract(p) => Leave(s, p, false)
    case Bind(d, p, a) => s.(binding := s.binding[d := p])
    case Promote(p) => s.(primary := p)
    case Claim(p, _) => s.(gone := s.gone + {p})
    case Teardown(p, _) =>
      s.(teardowns := s.teardowns + multiset{p},
         binding := if p in s.device then s.binding[s.device[p] := NULL_PATH] else s.binding)
    case Remove(p, _) => Leave(s, p, true)
    case PromoteIfFree(p) => s.(primary := if s.primary in s.registry then s.primary else p)
    case Drop(d, p) => if p in s.registry && p in s.adopted then Leave(s, p, true) else s
    case Unbind(d) => s.(binding := s.binding[d := NULL_PATH])
    case _ => s
  }

  /** Bind also starts the goroutine that will settle the activation. */
  function Started(pc: Pc): seq<Pc> {
    if pc.Bind? && !pc.adopted then [Check(pc.p)] else []
  }

  function Section(s: State, t: nat, outcome: Outcome): State
    requires t < |s.threads|
  {
    var pc := s.threads[t];
    Writes(s, pc).(threads := s.threads[t := NextPc(s, pc, outcome)] + Started(pc))
  }

  predicate Enabled(s: State, e: Event) {
    match e
    case Spawn(pc) => Entry(pc)
    case Move(t, _) => t < |s.threads|
  }

  function Step(s: State, e: Event): State
    requires Enabled(s, e)
  {
    match e
    case Spawn(pc) => s.(threads := s.threads + [pc])
    case Move(t, outcome) => Section(s, t, outcome)
  }

  ghost predicate Reaches(s: State, es: seq<Event>, s': State)
    decreases |es|
  {
    if es == [] then s' == s else Enabled(s, es[0]) && Reaches(Step(s, es[0]), es[1..], s')
  }

  /** A goroutine holding p here is the only one that may run its teardown. */
  predicate Holds(pc: Pc, p: Path) { pc.Teardown? && pc.p == p }

  /** `gone` is a lock that is taken once: whoever sets it runs the body, nobody else does. */
  ghost predicate TeardownInv(s: State) {
    && (forall p :: s.teardowns[p] <= 1)
    && (forall p :: s.teardowns[p] == 1 ==> p in s.gone)
    && (forall t | 0 <= t < |s.threads| && s.threads[t].Teardown? ::
          s.threads[t].p in s.gone && s.teardowns[s.threads[t].p] == 0)
    && (forall t, u | 0 <= t < u < |s.threads| && s.threads[t].Teardown? && s.threads[u].Teardown? ::
          s.threads[t].p != s.threads[u].p)
    && (forall t | 0 <= t < |s.threads| :: Plain(s.threads[t]))
  }

  /** Every path is inserted once, by the goroutine that allocated it. */
  ghost predicate RegistryInv(s: State) {
    && s.removed !! s.registry && s.removed <= s.inserted && s.registry <= s.inserted
    && (forall p <- s.inserted :: p <= s.acGen)
    && (forall t | 0 <= t < |s.threads| && s.threads[t].Insert? ::
          s.threads[t].p <= s.acGen && s.threads[t].p !in s.inserted)
    && (forall t, u | 0 <= t < u < |s.threads| && s.threads[t].Insert? && s.threads[u].Insert? ::
          s.threads[t].p != s.threads[u].p)
    && (forall t | 0 <= t < |s.threads| :: Plain(s.threads[t]))
  }

  /** What is left to do after a deactivate is never in the middle of something. */
  predicate Plain(pc: Pc) {
    (pc.Claim? || pc.Teardown? || pc.Remove?) ==> pc.resume.Done? || pc.resume.Allocate?
  }

  ghost predicate Inv(s: State) { TeardownInv(s) && RegistryInv(s) }

  /** Only the goroutine that moved changed its program counter; at most a new Check was started. */
  ghost predicate Moved(s: State, t: nat, s': State) {
    && t < |s.threads| <= |s'.threads| <= |s.threads| + 1
    && (forall u | 0 <= u < |s.threads| && u != t :: s'.threads[u] == s.threads[u])
    && (|s'.threads| > |s.threads| ==> s'.threads[|s.threads|].Check?)
  }

  lemma OtherPc(s: State, pc: Pc, outcome: Outcome)
    requires Plain(pc)
    ensures
      var pc' := NextPc(s, pc, outcome);
      && Plain(pc') && (!pc.Claim? ==> !pc'.Teardown?) && (!pc.Allocate? ==> !pc'.Insert?)
  {}

  lemma OtherWrites(s: State, pc: Pc)
    ensures
      var s' := Writes(s, pc);
      && (!pc.Claim? ==> s'.gone == s.gone)
      && (!pc.Teardown? ==> s'.teardowns == s.teardowns)
      && (!pc.Allocate? ==> s'.acGen == s.acGen)
      && (!pc.Insert? ==> s'.inserted == s.inserted && s'.registry <= s.registry)
      && s.removed <= s'.removed <= s.removed + (s.registry - s'.registry)
  {}

  lemma TeardownStep(s: State, e: Event)
    requires TeardownInv(s) && Enabled(s, e)
    ensures TeardownInv(Step(s, e))
  {
    if e.Move? {
      var s', pc := Step(s, e), s.threads[e.t];
      assert Plain(pc);
      OtherPc(s, pc, e.outcome);
      OtherWrites(s, pc);
      assert Moved(s, e.t, s');
      if pc.Teardown? {
        assert s'.teardowns == s.teardowns + multiset{pc.p};
      } else if pc.Claim? && pc.p !in s.gone {
        assert s'.threads[e.t] == Teardown(pc.p, pc.resume) && s'.gone == s.gone + {pc.p};
        assert s.teardowns[pc.p] == 0;
      } else {
        assert s'.gone == s.gone && !s'.threads[e.t].Teardown?;
      }
    }
  }

  lemma RegistryStep(s: State, e: Event)
    requires RegistryInv(s) && Enabled(s, e)
    ensures RegistryInv(Step(s, e)) && s.removed <= Step(s, e).removed
  {
    if e.Move? {
      var s', pc := Step(s, e), s.threads[e.t];
      assert Plain(pc);
      OtherPc(s, pc, e.outcome);
      OtherWrites(s, pc);
      assert Moved(s, e.t, s');
      if pc.Allocate? {
        assert s'.threads[e.t] == Insert(pc.d, s.acGen + 1, pc.adopted) && s'.acGen == s.acGen + 1;
      } else if pc.Insert? {
        assert s'.registry == s.registry + {pc.p} && s'.inserted == s.inserted + {pc.p} && s'.removed == s.removed;
      }
    }
  }

  lemma StepInv(s: State, e: Event)
    requires Inv(s) && Enabled(s, e)
    ensures Inv(Step(s, e)) && s.removed <= Step(s, e).removed
  {
    TeardownStep(s, e);
    RegistryStep(s, e);
  }

  lemma {:induction false} RunInv(s: State, es: seq<Event>, s': State)
    requires Inv(s) && Reaches(s, es, s')
    ensures Inv(s') && s.removed <= s'.removed
    decreases |es|
  {
    if es != [] {
      StepInv(s, es[0]);
      RunInv(Step(s, es[0]), es[1..], s');
    }
  }

  /** However the goroutines interleave, the teardown body runs at most once per connection. */
  lemma TeardownOnce(es: seq<Event>, s: State, p: Path)
    requires Reaches(INIT, es, s)
    ensures s.teardowns[p] <= 1
    ensures forall t, u | 0 <= t < u < |s.threads| :: !(Holds(s.threads[t], p) && Holds(s.threads[u], p))
    ensures s.teardowns[p] == 1 ==> forall t | 0 <= t < |s.threads| :: !Holds(s.threads[t], p)
  {
    RunInv(INIT, es, s);
  }

  /** A path that has left the registry never enters it again. */
  lemma NeverReenters(es: seq<Event>, s: State, fs: seq<Event>, s': State, p: Path)
    requires Reaches(INIT, es, s) && p in s.removed && Reaches(s, fs, s')
    ensures p in s'.removed && p !in s'.registry
  {
    RunInv(INIT, es, s);
    RunInv(s, fs, s');
  }

  /**
    At this granularity the registry and the devices are NOT in bijection: two clients that both
    read device 7 as free leave two registered connections on it.
   */
  lemma TwoConnectionsOnOneDevice() returns (es: seq<Event>, s: State)
    ensures Reaches(INIT, es, s)
    ensures s.registry == {1, 2} && s.device == map[1 := 7, 2 := 7] && s.binding == map[7 := 2] && s.gone == {}
  {
    var a, b := Move(0, Good), Move(1, Good);
    var s2 := Step(Step(INIT, Spawn(ReadBinding(7))), Spawn(ReadBinding(7)));
    var s4 := Step(Step(s2, a), b);
    assert s4 == INIT.(threads := [Allocate(7, false), Allocate(7, false)]);
    var s8 := Step(Step(Step(Step(s4, a), a), a), a);
    assert s8 == State({1}, map[1 := 7], {}, {}, map[7 := 1], NULL_PATH, 1, [Done, Allocate(7, false), Check(1)],
      {1}, {}, multiset{});
    s := Step(Step(Step(Step(s8, b), b), b), b);
    es := [Spawn(ReadBinding(7)), Spawn(ReadBinding(7)), a, b] + [a, a, a, a] + [b, b, b, b];
    Chain4(INIT, Spawn(ReadBinding(7)), Spawn(ReadBinding(7)), a, b);
    Chain4(s4, a, a, a, a);
    Chain4(s8, b, b, b, b);
    Join(INIT, [Spawn(ReadBinding(7)), Spawn(ReadBinding(7)), a, b], s4, [a, a, a, a], s8);
    Join(INIT, [Spawn(ReadBinding(7)), Spawn(ReadBinding(7)), a, b] + [a, a, a, a], s8, [b, b, b, b], s);
  }

  /** Connection 1 has been brought up and found not superseded; a client asks for its removal. */
  const SETTLING := State({1}, map[1 := 7], {}, {}, map[7 := 1], NULL_PATH, 1, [Done, Promote(1), Find(1)], {1}, {},
    multiset{})

  lemma SettlingIsReachable() returns (es: seq<Event>)
    ensures Reaches(INIT, es, SETTLING)
  {
    var a, c := Move(0, Good), Move(1, Good);
    var s4 := Step(Step(Step(Step(INIT, Spawn(ReadBinding(7))), a), a), a);
    assert s4 == INIT.(threads := [Export(7, 1, false)], acGen := 1, registry := {1}, inserted := {1},
      device := map[1 := 7]);
    Chain4(INIT, Spawn(ReadBinding(7)), a, a, a);
    Chain4(s4, a, a, c, Spawn(Find(1)));
    assert Step(Step(Step(Step(s4, a), a), c), Spawn(Find(1))) == SETTLING;
    Join(INIT, [Spawn(ReadBinding(7)), a, a, a], s4, [a, a, c, Spawn(Find(1))], SETTLING);
    es := [Spawn(ReadBinding(7)), a, a, a] + [a, a, c, Spawn(Find(1))];
  }

  /** The same connection after the removal ended, the settle still about to publish it. */
  const DEAD := State({}, map[1 := 7], {}, {1}, map[7 := NULL_PATH], NULL_PATH, 1, [Done, Promote(1), Done], {1},
    {1}, multiset{1})

  lemma DeadIsReachable()
    ensures Reaches(SETTLING, [Move(2, Good), Move(2, Good), Move(2, Good), Move(2, Good)], DEAD)
  {
    var f := Move(2, Good);
    Chain4(SETTLING, f, f, f, f);
    HalfTorn();
    assert Step(Step(HALF_TORN, f), f) == DEAD;
  }

  /** In between: the teardown is claimed, its body still to run. */
  const HALF_TORN := SETTLING.(gone := {1}, threads := [Done, Promote(1), Teardown(1, Done)])

  lemma HalfTorn()
    ensures Step(Step(SETTLING, Move(2, Good)), Move(2, Good)) == HALF_TORN
  {}

  /**
    Nor is `primary` null or registered: a settle that passed the superseded check before a
    deactivate began publishes the dead connection after it ended.
   */
  lemma StalePrimary() returns (es: seq<Event>, s: State)
    ensures Reaches(INIT, es, s)
    ensures s.primary == 1 && s.registry == {} && s.gone == {1} && s.binding == map[7 := NULL_PATH]
  {
    var c, f := Move(1, Good), Move(2, Good);
    var front := SettlingIsReachable();
    DeadIsReachable();
    s := DEAD.(primary := 1, threads := [Done, Done, Done]);
    assert Step(DEAD, c) == s;
    assert Reaches(DEAD, [c], s);
    Join(INIT, front, SETTLING, [f, f, f, f], DEAD);
    Join(INIT, front + [f, f, f, f], DEAD, [c], s);
    es := front + [f, f, f, f] + [c];
  }

  lemma Chain4(s: State, a: Event, b: Event, c: Event, d: Event)
    requires Enabled(s, a) && Enabled(Step(s, a), b) && Enabled(Step(Step(s, a), b), c)
    requires Enabled(Step(Step(Step(s, a), b), c), d)
    ensures Reaches(s, [a, b, c, d], Step(Step(Step(Step(s, a), b), c), d))
  {
    var s1 := Step(s, a);
    var s2 := Step(s1, b);
    var s3 := Step(s2, c);
    var s4 := Step(s3, d);
    assert Reaches(s4, [], s4);
    assert [d][1..] == [] && Reaches(s3, [d], s4);
    assert [c, d][1..] == [d] && Reaches(s2, [c, d], s4);
    assert [b, c, d][1..] == [c, d] && Reaches(s1, [b, c, d], s4);
    assert [a, b, c, d][1..] == [b, c, d];
  }

  lemma {:induction false} Join(s: State, es: seq<Event>, t: State, fs: seq<Event>, u: State)
    requires Reaches(s, es, t) && Reaches(t, fs, u)
    ensures Reaches(s, es + fs, u)
    decreases |es|
  {
    if es == [] {
      assert es + fs == fs;
    } else {
      assert (es + fs)[1..] == es[1..] + fs;
      Join(Step(s, es[0]), es[1..], t, fs, u);
    }
  }
}
