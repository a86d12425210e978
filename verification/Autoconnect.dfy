/**
  The wired autoconnect latch of one device at the granularity of its mutex: any number of
  goroutines inside autoConnectWired, manageWired, updateLink and the activation code, interleaved
  at the boundaries of their d.mu sections.
 */
module Autoconnect {
  import opened Common

  /**
    The fields the mutex guards, and the history that the claim is about.  running counts the
    goroutines that took the latch and have not finished; wins the automatic activations that
    succeeded; downs the link events that reported carrier lost.
   */
  datatype State = State(carrier: bool, autoWired: bool, activeConn: Path, running: nat, wins: nat, losses: nat,
      downs: nat)

  datatype Section =
    | Link(up: bool)        // updateLink: a link event arrives
    | Reread(up: bool)      // manageWired: carrier re-read after raising the link, the latch untouched
    | Try                   // autoConnectWired: test the three conditions, take the latch
    | Fail                  // autoConnectWired: adding the profile or activating it failed
    | Win(p: Path)          // its activation binds the device, after which it cannot fail
    | Bind(p: Path)         // any other activation, adoption or deactivation binds the device or frees it

  /** At start-up the carrier is whatever the first enumeration saw. */
  predicate Initial(s: State) { s == State(s.carrier, false, NULL_PATH, 0, 0, 0, 0) }

  predicate Skip(s: State) { !s.carrier || s.activeConn != NULL_PATH || s.autoWired }

  predicate Enabled(s: State, e: Section) { (e.Fail? || e.Win? ==> s.running > 0) && (e.Win? ==> e.p != NULL_PATH) }

  function Step(s: State, e: Section): State
    requires Enabled(s, e)
  {
    match e
    case Link(up) => s.(carrier := up, autoWired := s.autoWired && up, downs := if up then s.downs else s.downs + 1)
    case Reread(up) => s.(carrier := up)
    case Try => if Skip(s) then s else s.(autoWired := true, running := s.running + 1)
    case Fail => s.(autoWired := false, running := s.running - 1, losses := s.losses + 1)
    case Win(p) => s.(running := s.running - 1, wins := s.wins + 1, activeConn := p)
    case Bind(p) => s.(activeConn := p)
  }

  ghost predicate Reaches(s: State, es: seq<Section>, s': State)
    decreases |es|
  {
    if es == [] then s' == s else Enabled(s, es[0]) && Reaches(Step(s, es[0]), es[1..], s')
  }

  /** A set latch stands for one attempt beyond those that carrier losses have paid for. */
  predicate Budget(s: State) { s.wins + s.running <= s.downs + if s.autoWired then 1 else 0 }

  lemma {:induction false} BudgetKept(s: State, es: seq<Section>, s': State)
    requires Budget(s) && Reaches(s, es, s')
    ensures Budget(s')
    decreases |es|
  {
    if es != [] {
      assert Budget(Step(s, es[0]));
      BudgetKept(Step(s, es[0]), es[1..], s');
    }
  }

  /** However the sections interleave: at most one automatic activation, plus one for each carrier loss seen. */
  lemma AtMostOncePerCarrier(s: State, es: seq<Section>, s': State)
    requires Initial(s) && Reaches(s, es, s')
    ensures s'.wins <= 1 + s'.downs
  {
    BudgetKept(s, es, s');
  }

  /** n attempts that take the latch and fail. */
  function Failures(n: nat): seq<Section> {
    if n == 0 then [] else [Try, Fail] + Failures(n - 1)
  }

  /** Carrier, n attempts that fail, one that binds the device to p. */
  function Success(n: nat, p: Path): seq<Section> { [Link(true)] + Failures(n) + [Try, Win(p)] }

  /** One round for each number in fs: that many failures, a success, a client's disconnect, the cable pulled. */
  function Rounds(fs: seq<nat>, p: Path): seq<Section> {
    if fs == [] then [] else Success(fs[0], p) + [Bind(NULL_PATH), Link(false)] + Rounds(fs[1..], p)
  }

  function Sum(fs: seq<nat>): nat { if fs == [] then 0 else fs[0] + Sum(fs[1..]) }

  predicate Ready(s: State) { !s.autoWired && s.activeConn == NULL_PATH && s.running == 0 }

  lemma {:induction false} FailuresRun(s: State, n: nat) returns (s': State)
    requires Ready(s) && s.carrier
    ensures Reaches(s, Failures(n), s') && s' == s.(losses := s.losses + n)
    decreases n
  {
    s' := s;
    if n > 0 {
      var s1 := Step(Step(s, Try), Fail);
      s' := FailuresRun(s1, n - 1);
      Two(s, Try, Fail);
      Join(s, [Try, Fail], s1, Failures(n - 1), s');
    }
  }

  lemma SuccessRun(s: State, n: nat, p: Path) returns (s': State)
    requires Ready(s) && p != NULL_PATH
    ensures Reaches(s, Success(n, p), s')
    ensures s' == s.(carrier := true, autoWired := true, activeConn := p, wins := s.wins + 1, losses := s.losses + n)
  {
    var s1 := Step(s, Link(true));
    assert Reaches(s1, [], s1) && Reaches(s, [Link(true)], s1);
    var s2 := FailuresRun(s1, n);
    s' := Step(Step(s2, Try), Win(p));
    Two(s2, Try, Win(p));
    Join(s, [Link(true)], s1, Failures(n), s2);
    Join(s, [Link(true)] + Failures(n), s2, [Try, Win(p)], s');
  }

  /** The bound is reached, however often attempts failed meanwhile: failures do not use up the budget. */
  lemma {:induction false} BoundIsReached(s: State, fs: seq<nat>, last: nat, p: Path) returns (s': State)
    requires Ready(s) && p != NULL_PATH
    ensures Reaches(s, Rounds(fs, p) + Success(last, p), s')
    ensures s'.wins == s.wins + |fs| + 1 && s'.downs == s.downs + |fs| && s'.losses == s.losses + Sum(fs) + last
    decreases |fs|
  {
    if fs == [] {
      s' := SuccessRun(s, last, p);
      assert Rounds(fs, p) + Success(last, p) == Success(last, p);
    } else {
      var s1 := SuccessRun(s, fs[0], p);
      var s2 := Step(Step(s1, Bind(NULL_PATH)), Link(false));
      Two(s1, Bind(NULL_PATH), Link(false));
      s' := BoundIsReached(s2, fs[1..], last, p);
      var round, rest := Success(fs[0], p), Rounds(fs[1..], p) + Success(last, p);
      Join(s, round, s1, [Bind(NULL_PATH), Link(false)], s2);
      Join(s, round + [Bind(NULL_PATH), Link(false)], s2, rest, s');
      assert Rounds(fs, p) + Success(last, p) == round + [Bind(NULL_PATH), Link(false)] + rest;
    }
  }

  lemma Two(s: State, a: Section, b: Section)
    requires Enabled(s, a) && Enabled(Step(s, a), b)
    ensures Reaches(s, [a, b], Step(Step(s, a), b))
  {
    var s2 := Step(Step(s, a), b);
    assert Reaches(s2, [], s2) && [b][1..] == [] && [a, b][1..] == [b];
    assert Reaches(Step(s, a), [b], s2);
  }

  lemma {:induction false} Join(s: State, es: seq<Section>, t: State, fs: seq<Section>, u: State)
    requires Reaches(s, es, t) && Reaches(t, fs, u)
    ensures Reaches(s, es + fs, u)
    decreases |es|
  {
    if es == [] {
      assert es + fs == fs;
    } else {
      assert (es + fs)[1..] == es[1..] + fs;
      Join(Step(s, es[0]), es[1..], t, fs, u);
    }
  }
}
