/**
  The steps of ActivationSpec are what the operations of LockSteps do when they run to their end:
  one goroutine taking all its critical sections changes the shared fields as the one step does.
 */
module LockAtomic {
  import opened Common
  import opened LockSteps
  import S = ActivationSpec
  import I = ActivationInvariant

  /** The two models agree on the fields that the locks protect. */
  ghost predicate Same(s: State, a: S.State) {
    && s.registry == a.registry && s.primary == a.primary && s.acGen == a.acGen
    && (forall p <- a.conns :: SameConn(s, p, a.conns[p]))
    && (forall d <- a.devs :: BoundTo(s, d) == a.devs[d].activeConn)
    && (forall p <- s.adopted :: p <= s.acGen)
    && (forall p <- s.gone :: p <= s.acGen)
  }

  predicate SameConn(s: State, p: Path, c: S.Conn) {
    && p in s.device && s.device[p] == c.device
    && (p in s.adopted <==> c.adopted) && (p in s.gone <==> c.gone)
  }

  /** Goroutine t takes its next sections, the environment deciding outs, and no other goroutine moves. */
  function Alone(s: State, t: nat, outs: seq<Outcome>): (s': State)
    requires t < |s.threads|
    ensures t < |s'.threads|
    decreases |outs|
  {
    if outs == [] then s else Alone(Section(s, t, outs[0]), t, outs[1..])
  }

  lemma {:induction false} AloneMore(s: State, t: nat, outs: seq<Outcome>, more: seq<Outcome>)
    requires t < |s.threads|
    ensures Alone(s, t, outs + more) == Alone(Alone(s, t, outs), t, more)
    decreases |outs|
  {
    if outs == [] {
      assert outs + more == more;
    } else {
      assert (outs + more)[1..] == outs[1..] + more;
      AloneMore(Section(s, t, outs[0]), t, outs[1..], more);
    }
  }

  lemma AloneOne(s: State, t: nat, a: Outcome)
    requires t < |s.threads|
    ensures Alone(s, t, [a]) == Section(s, t, a)
  {
    assert [a][1..] == [];
  }

  lemma AloneTwo(s: State, t: nat, a: Outcome, b: Outcome)
    requires t < |s.threads|
    ensures Alone(s, t, [a, b]) == Section(Section(s, t, a), t, b)
  {
    assert [a, b] == [a] + [b];
    AloneMore(s, t, [a], [b]);
    AloneOne(s, t, a);
    AloneOne(Section(s, t, a), t, b);
  }

  lemma AloneFour(s: State, t: nat, a: Outcome, b: Outcome, c: Outcome, d: Outcome)
    requires t < |s.threads|
    ensures Alone(s, t, [a, b, c, d]) == Section(Section(Section(Section(s, t, a), t, b), t, c), t, d)
  {
    assert [a, b, c, d] == [a, b] + [c, d];
    AloneMore(s, t, [a, b], [c, d]);
    AloneTwo(s, t, a, b);
    AloneTwo(Section(Section(s, t, a), t, b), t, c, d);
  }

  // ---- what the sections of a teardown, and of a creation, add up to ------------------------------------

  /** The shared fields, apart from who runs. */
  predicate SameFields(s: State, s': State) {
    && s'.registry == s.registry && s'.primary == s.primary && s'.acGen == s.acGen && s'.device == s.device
    && s'.adopted == s.adopted && s'.gone == s.gone && s'.binding == s.binding
  }

  /** From s to s', connection p was taken out and its device freed. */
  predicate TornDown(s: State, s': State, p: Path) {
    && p in s.device && s'.registry == s.registry - {p} && s'.acGen == s.acGen && s'.device == s.device
    && s'.primary == (if s.primary == p then NULL_PATH else s.primary)
    && s'.adopted == s.adopted && s'.gone == s.gone + {p} && s'.binding == s.binding[s.device[p] := NULL_PATH]
  }

  /** From s to s', the next path was taken for a connection of device d, which is bound to it if the export worked. */
  predicate Made(s: State, s': State, d: nat, adopted: bool, exported: bool) {
    var p := s.acGen + 1;
    && s'.acGen == p && s'.device == s.device[p := d] && s'.gone == s.gone && s'.primary == s.primary
    && s'.adopted == (if adopted then s.adopted + {p} else s.adopted)
    && s'.registry == (if exported then s.registry + {p} else s.registry - {p})
    && s'.binding == (if exported then s.binding[d := p] else s.binding)
  }

  lemma TearSections(s: State, t: nat, p: Path, k: Pc)
    requires t < |s.threads| && s.threads[t] == Claim(p, k) && p in s.device && p !in s.gone
    ensures
      var s' := Alone(s, t, [Good, Good] + [Good]);
      TornDown(s, s', p) && s'.threads[t] == k
  {
    AloneMore(s, t, [Good, Good], [Good]);
    AloneTwo(s, t, Good, Good);
    var s2 := Section(Section(s, t, Good), t, Good);
    AloneOne(s2, t, Good);
    assert s2.threads[t] == Remove(p, k);
  }

  lemma MakeSections(s: State, t: nat, d: nat, adopted: bool, exported: bool)
    requires t < |s.threads| && s.threads[t] == Allocate(d, adopted)
    ensures
      var p, s' := s.acGen + 1, Alone(s, t, [Good, Good, if exported then Good else Bad, Good]);
      && Made(s, s', d, adopted, exported)
      && s'.threads[t] == if adopted && exported then PromoteIfFree(p) else Done
  {
    var o := if exported then Good else Bad;
    AloneFour(s, t, Good, Good, o, Good);
    var s1 := Section(s, t, Good);
    var s2 := Section(s1, t, Good);
    var s3 := Section(s2, t, o);
    assert s2.threads[t] == Export(d, s.acGen + 1, adopted);
    assert s3.threads[t] == if exported then Bind(d, s.acGen + 1, adopted) else Retract(s.acGen + 1);
  }

  // ---- which is what the steps of ActivationSpec do --------------------------------------------------------

  lemma TornSame(s: State, s': State, a: S.State, p: Path)
    requires Same(s, a) && S.Inv(a) && p in a.registry && TornDown(s, s', p)
    ensures Same(s', S.Deactivate(a, p))
  {
    var b := S.Deactivate(a, p);
    assert SameConn(s, p, a.conns[p]);
    forall q | q in b.conns ensures SameConn(s', q, b.conns[q]) {
      assert SameConn(s, q, a.conns[q]);
    }
    forall d | d in b.devs ensures BoundTo(s', d) == b.devs[d].activeConn {
      assert BoundTo(s, d) == a.devs[d].activeConn;
    }
  }

  /** A creation: registered and bound, or only a path used up. */
  function Created(a: S.State, q: Path, d: Path, adopted: bool, exported: bool): S.State
    requires d in a.devs
  {
    var t := S.Register(a, q, d, adopted, exported);
    if exported then S.WithDev(t, d, t.devs[d].(activeConn := t.acGen)) else t
  }

  lemma MadeSame(s: State, s': State, a: S.State, q: Path, d: Path, adopted: bool, exported: bool)
    requires Same(s, a) && S.Inv(a) && d in a.devs && Made(s, s', d, adopted, exported)
    ensures Same(s', Created(a, q, d, adopted, exported))
  {
    assert a.acGen + 1 !in a.conns && a.acGen + 1 !in a.registry;
    MadeConns(s, s', a, d, adopted, exported);
    if exported { EnteredSame(s, s', a, q, d, adopted); } else { LostSame(s, s', a, q, d, adopted); }
  }

  lemma MadeConns(s: State, s': State, a: S.State, d: Path, adopted: bool, exported: bool)
    requires Same(s, a) && a.acGen + 1 !in a.conns && Made(s, s', d, adopted, exported)
    ensures forall c <- a.conns :: SameConn(s', c, a.conns[c])
    ensures (forall p <- s'.adopted :: p <= s'.acGen) && (forall p <- s'.gone :: p <= s'.acGen)
  {
    forall c | c in a.conns ensures SameConn(s', c, a.conns[c]) {
      assert SameConn(s, c, a.conns[c]);
    }
  }

  lemma EnteredSame(s: State, s': State, a: S.State, q: Path, d: Path, adopted: bool)
    requires Same(s, a) && d in a.devs && Made(s, s', d, adopted, true)
    requires a.acGen + 1 !in a.conns && forall c <- a.conns :: SameConn(s', c, a.conns[c])
    requires (forall p <- s'.adopted :: p <= s'.acGen) && (forall p <- s'.gone :: p <= s'.acGen)
    ensures Same(s', Created(a, q, d, adopted, true))
  {
    var p, b := a.acGen + 1, Created(a, q, d, adopted, true);
    assert SameConn(s', p, S.NewConn(q, d, adopted));
    forall e | e in b.devs ensures BoundTo(s', e) == b.devs[e].activeConn {
      assert BoundTo(s, e) == a.devs[e].activeConn;
    }
  }

  lemma LostSame(s: State, s': State, a: S.State, q: Path, d: Path, adopted: bool)
    requires Same(s, a) && d in a.devs && a.acGen + 1 !in a.registry && Made(s, s', d, adopted, false)
    requires forall c <- a.conns :: SameConn(s', c, a.conns[c])
    requires (forall p <- s'.adopted :: p <= s'.acGen) && (forall p <- s'.gone :: p <= s'.acGen)
    ensures Same(s', Created(a, q, d, adopted, false))
  {
    forall e | e in a.devs ensures BoundTo(s', e) == a.devs[e].activeConn {
      assert BoundTo(s, e) == a.devs[e].activeConn;
    }
  }

  lemma FieldsSame(s: State, s': State, a: S.State)
    requires Same(s, a) && SameFields(s, s')
    ensures Same(s', a)
  {
    forall p | p in a.conns ensures SameConn(s', p, a.conns[p]) {
      assert SameConn(s, p, a.conns[p]);
    }
    forall d | d in a.devs ensures BoundTo(s', d) == a.devs[d].activeConn {
      assert BoundTo(s, d) == a.devs[d].activeConn;
    }
  }

  /** The atomic states agree on what the locks protect. */
  ghost predicate Alike(a: S.State, b: S.State) {
    && b.registry == a.registry && b.primary == a.primary && b.acGen == a.acGen
    && b.conns.Keys == a.conns.Keys && b.devs.Keys == a.devs.Keys
    && (forall p <- a.conns :: AlikeConn(a.conns[p], b.conns[p]))
    && (forall d <- a.devs :: a.devs[d].activeConn == b.devs[d].activeConn)
  }

  predicate AlikeConn(c: S.Conn, c': S.Conn) { c'.device == c.device && c'.adopted == c.adopted && c'.gone == c.gone }

  lemma AlikeSame(s: State, a: S.State, b: S.State)
    requires Same(s, a) && Alike(a, b)
    ensures Same(s, b)
  {
    forall p | p in b.conns ensures SameConn(s, p, b.conns[p]) {
      assert SameConn(s, p, a.conns[p]) && AlikeConn(a.conns[p], b.conns[p]);
    }
  }

  /** The goroutine, run alone, gets to pc in a state that agrees with a. */
  ghost predicate Gets(s: State, t: nat, outs: seq<Outcome>, pc: Pc, a: S.State)
    requires t < |s.threads|
  {
    Alone(s, t, outs).threads[t] == pc && Same(Alone(s, t, outs), a)
  }

  // ---- the operations ------------------------------------------------------------------------------------------

  /** From the claim of a registered connection on: Deactivate. */
  lemma TearAlone(s: State, t: nat, a: S.State, p: Path, k: Pc) returns (outs: seq<Outcome>)
    requires t < |s.threads| && s.threads[t] == Claim(p, k) && Same(s, a) && S.Inv(a) && p in a.registry
    ensures Gets(s, t, outs, k, S.Deactivate(a, p))
  {
    outs := [Good, Good] + [Good];
    assert SameConn(s, p, a.conns[p]);
    TearSections(s, t, p, k);
    TornSame(s, Alone(s, t, outs), a, p);
  }

  lemma Then(s: State, t: nat, outs: seq<Outcome>, more: seq<Outcome>, pc: Pc, a: S.State)
    requires t < |s.threads| && Gets(Alone(s, t, outs), t, more, pc, a)
    ensures Gets(s, t, outs + more, pc, a)
  {
    AloneMore(s, t, outs, more);
  }

  /** activeOn, and the deactivation of what it found: Release. */
  lemma ReleaseAlone(s: State, t: nat, a: S.State, d: Path) returns (outs: seq<Outcome>)
    requires t < |s.threads| && s.threads[t] == ReadBinding(d) && Same(s, a) && S.Inv(a) && d in a.devs
    ensures Gets(s, t, outs, Allocate(d, false), S.Release(a, d))
  {
    var cur := a.devs[d].activeConn;
    assert BoundTo(s, d) == cur && NULL_PATH !in a.registry;
    if cur == NULL_PATH {
      outs := [Good];
      AloneOne(s, t, Good);
      FieldsSame(s, Alone(s, t, outs), a);
    } else {
      AloneTwo(s, t, Good, Good);
      var s2 := Alone(s, t, [Good, Good]);
      FieldsSame(s, s2, a);
      var more := TearAlone(s2, t, a, cur, Allocate(d, false));
      Then(s, t, [Good, Good], more, Allocate(d, false), S.Deactivate(a, cur));
      outs := [Good, Good] + more;
    }
  }

  /** The rest of activate. */
  function Entered(a: S.State, q: Path, d: Path, exported: bool): S.State
    requires d in a.devs
  {
    var t := S.Register(a, q, d, false, exported);
    if exported then S.Prepare(t, d, t.acGen) else t
  }

  lemma CreateAlone(s: State, t: nat, a: S.State, q: Path, d: Path, exported: bool) returns (outs: seq<Outcome>)
    requires t < |s.threads| && s.threads[t] == Allocate(d, false) && Same(s, a) && S.Inv(a) && d in a.devs
    ensures Gets(s, t, outs, Done, Entered(a, q, d, exported))
  {
    outs := [Good, Good, if exported then Good else Bad, Good];
    MakeSections(s, t, d, false, exported);
    MadeSame(s, Alone(s, t, outs), a, q, d, false, exported);
    AlikeSame(Alone(s, t, outs), Created(a, q, d, false, exported), Entered(a, q, d, exported));
  }

  /** activate, run to its end, is the step Activate. */
  lemma ActivateAlone(s: State, t: nat, a: S.State, q: Path, d: Path, exported: bool) returns (outs: seq<Outcome>)
    requires t < |s.threads| && s.threads[t] == ReadBinding(d) && Same(s, a) && S.Inv(a) && d in a.devs
    ensures Gets(s, t, outs, Done, S.Activate(a, q, d, exported))
  {
    var front := ReleaseAlone(s, t, a, d);
    I.ReleaseInv(a, d);
    var more := CreateAlone(Alone(s, t, front), t, S.Release(a, d), q, d, exported);
    Then(s, t, front, more, Done, S.Activate(a, q, d, exported));
    outs := front + more;
  }

  /** A client's deactivation is the step Deactivate, or nothing if the path is not registered. */
  lemma DeactivateAlone(s: State, t: nat, a: S.State, p: Path) returns (outs: seq<Outcome>)
    requires t < |s.threads| && s.threads[t] == Find(p) && Same(s, a) && S.Inv(a)
    ensures Gets(s, t, outs, Done, if p in a.registry then S.Deactivate(a, p) else a)
  {
    AloneOne(s, t, Good);
    var s1 := Alone(s, t, [Good]);
    FieldsSame(s, s1, a);
    if p in a.registry {
      var more := TearAlone(s1, t, a, p, Done);
      Then(s, t, [Good], more, Done, S.Deactivate(a, p));
      outs := [Good] + more;
    } else {
      outs := [Good];
    }
  }

  /** What the superseded check sees: a cancelled context, a failed bring-up or a successful one. */
  function SettleOutcome(a: S.State, p: Path, failed: bool, ctxDone: bool): Outcome
    requires S.Resolves(a, p)
  {
    if ctxDone then Cancelled
    else if failed || !S.Supported(a.devs[a.conns[p].device].kind) then Bad else Good
  }

  /** What a settle does to the fields that the locks protect. */
  function Essence(a: S.State, p: Path, o: Outcome): S.State
    requires S.Resolves(a, p)
  {
    if o.Cancelled? || a.conns[p].gone then a else if o.Bad? then S.Deactivate(a, p) else a.(primary := p)
  }

  lemma EssenceAlike(a: S.State, p: Path, failed: bool, ctxDone: bool)
    requires S.Resolves(a, p)
    ensures Alike(Essence(a, p, SettleOutcome(a, p, failed, ctxDone)), S.Settle(a, p, failed, ctxDone))
  {
  }

  lemma CheckAlone(s: State, t: nat, a: S.State, p: Path, o: Outcome) returns (outs: seq<Outcome>)
    requires t < |s.threads| && s.threads[t] == Check(p) && Same(s, a) && S.Inv(a) && p in a.conns && a.conns[p].pending
    ensures Gets(s, t, outs, Done, Essence(a, p, o))
  {
    assert SameConn(s, p, a.conns[p]);
    AloneOne(s, t, o);
    var s1 := Alone(s, t, [o]);
    FieldsSame(s, s1, a);
    outs := [o];
    if !o.Cancelled? && !a.conns[p].gone {
      assert S.Life(a.conns[p], p in a.registry);
      var more;
      if o.Bad? { more := TearAlone(s1, t, a, p, Done); } else { more := PromoteAlone(s1, t, a, p); }
      Then(s, t, [o], more, Done, Essence(a, p, o));
      outs := [o] + more;
    }
  }

  /** The end of a bring-up is the step Settle. */
  lemma SettleAlone(s: State, t: nat, a: S.State, p: Path, failed: bool, ctxDone: bool) returns (outs: seq<Outcome>)
    requires t < |s.threads| && s.threads[t] == Check(p) && Same(s, a) && S.Inv(a) && p in a.conns && a.conns[p].pending
    ensures Gets(s, t, outs, Done, S.Settle(a, p, failed, ctxDone))
  {
    var o := SettleOutcome(a, p, failed, ctxDone);
    outs := CheckAlone(s, t, a, p, o);
    EssenceAlike(a, p, failed, ctxDone);
    AlikeSame(Alone(s, t, outs), Essence(a, p, o), S.Settle(a, p, failed, ctxDone));
  }

  lemma PromoteAlone(s: State, t: nat, a: S.State, p: Path) returns (outs: seq<Outcome>)
    requires t < |s.threads| && s.threads[t] == Promote(p) && Same(s, a)
    ensures Gets(s, t, outs, Done, a.(primary := p))
  {
    outs := [Good];
    AloneOne(s, t, Good);
    PrimarySame(s, Alone(s, t, outs), a, p);
  }

  lemma PrimarySame(s: State, s': State, a: S.State, p: Path)
    requires Same(s, a) && SameFields(s.(primary := p), s')
    ensures Same(s', a.(primary := p))
  {
    forall q | q in a.conns ensures SameConn(s', q, a.conns[q]) {
      assert SameConn(s, q, a.conns[q]);
    }
    forall d | d in a.devs ensures BoundTo(s', d) == a.devs[d].activeConn {
      assert BoundTo(s, d) == a.devs[d].activeConn;
    }
  }

  lemma PromoteIfFreeAlone(s: State, t: nat, a: S.State, p: Path) returns (outs: seq<Outcome>)
    requires t < |s.threads| && s.threads[t] == PromoteIfFree(p) && Same(s, a)
    ensures Gets(s, t, outs, Done, S.Promoted(a, p))
  {
    outs := [Good];
    AloneOne(s, t, Good);
    PrimarySame(s, Alone(s, t, outs), a, S.Promoted(a, p).primary);
  }

  lemma AdoptionAlone(s: State, t: nat, a: S.State, q: Path, d: Path, exported: bool) returns (outs: seq<Outcome>)
    requires t < |s.threads| && s.threads[t] == Allocate(d, true) && Same(s, a) && S.Inv(a) && d in a.devs
    ensures Gets(s, t, outs, Done, if exported then S.Adopted(a, d, q) else S.Register(a, q, d, true, false))
  {
    outs := [Good, Good, if exported then Good else Bad, Good];
    MakeSections(s, t, d, true, exported);
    MadeSame(s, Alone(s, t, outs), a, q, d, true, exported);
    if exported {
      var more := PromoteIfFreeAlone(Alone(s, t, outs), t, Created(a, q, d, true, true), s.acGen + 1);
      Then(s, t, outs, more, Done, S.Adopted(a, d, q));
      outs := outs + more;
    }
  }

  /** adoptWifi is the step Adopt. */
  lemma AdoptAlone(s: State, t: nat, a: S.State, d: Path, q: Path, exported: bool) returns (outs: seq<Outcome>)
    requires t < |s.threads| && s.threads[t] == Busy(d) && Same(s, a) && S.Inv(a) && d in a.devs
    ensures Gets(s, t, outs, Done, S.Adopt(a, d, false, q, exported))
  {
    AloneOne(s, t, Good);
    var s1 := Alone(s, t, [Good]);
    FieldsSame(s, s1, a);
    outs := [Good];
    assert BoundTo(s, d) == a.devs[d].activeConn;
    if a.devs[d].activeConn == NULL_PATH {
      var more := AdoptionAlone(s1, t, a, q, d, exported);
      Then(s, t, [Good], more, Done, S.Adopt(a, d, false, q, exported));
      outs := [Good] + more;
    }
  }

  /** dropAdoptedWifi is the step DropAdopted. */
  lemma DropAlone(s: State, t: nat, a: S.State, d: Path) returns (outs: seq<Outcome>)
    requires t < |s.threads| && s.threads[t] == ReadAdopted(d) && Same(s, a) && S.Inv(a) && d in a.devs
    ensures Gets(s, t, outs, Done, S.DropAdopted(a, d))
  {
    var p, b := a.devs[d].activeConn, S.DropAdopted(a, d);
    assert BoundTo(s, d) == p && NULL_PATH !in a.registry;
    AloneOne(s, t, Good);
    var s1 := Alone(s, t, [Good]);
    FieldsSame(s, s1, a);
    outs := [Good];
    if p != NULL_PATH {
      var more := DroppingAlone(s1, t, a, d);
      Then(s, t, [Good], more, Done, b);
      outs := [Good] + more;
    }
  }

  lemma DroppingAlone(s: State, t: nat, a: S.State, d: Path) returns (outs: seq<Outcome>)
    requires d in a.devs && a.devs[d].activeConn in a.registry && Same(s, a) && S.Inv(a)
    requires t < |s.threads| && s.threads[t] == Drop(d, a.devs[d].activeConn)
    ensures Gets(s, t, outs, Done, S.DropAdopted(a, d))
  {
    var p := a.devs[d].activeConn;
    assert SameConn(s, p, a.conns[p]) && BoundTo(s, d) == p;
    AloneOne(s, t, Good);
    AloneTwo(s, t, Good, Good);
    if a.conns[p].adopted {
      outs := [Good, Good];
      DropSections(s, t, d, p);
      DropSame(s, Section(Section(s, t, Good), t, Good), a, d);
    } else {
      outs := [Good];
      FieldsSame(s, Section(s, t, Good), a);
    }
  }

  lemma DropSections(s: State, t: nat, d: nat, p: Path)
    requires t < |s.threads| && s.threads[t] == Drop(d, p) && p in s.registry && p in s.adopted
    ensures
      var s' := Section(Section(s, t, Good), t, Good);
      && SameFields(Leave(s, p, true).(binding := s.binding[d := NULL_PATH]), s')
      && t < |s'.threads| && s'.threads[t] == Done
  {
    assert Section(s, t, Good).threads[t] == Unbind(d);
  }

  lemma DropSame(s: State, s': State, a: S.State, d: Path)
    requires Same(s, a) && S.Inv(a) && d in a.devs
    requires a.devs[d].activeConn in a.registry && a.conns[a.devs[d].activeConn].adopted
    requires SameFields(Leave(s, BoundTo(s, d), true).(binding := s.binding[d := NULL_PATH]), s')
    ensures Same(s', S.DropAdopted(a, d))
  {
    var b := S.DropAdopted(a, d);
    forall q | q in b.conns ensures SameConn(s', q, b.conns[q]) {
      assert SameConn(s, q, a.conns[q]);
    }
    forall e | e in b.devs ensures BoundTo(s', e) == b.devs[e].activeConn {
      assert BoundTo(s, e) == a.devs[e].activeConn;
    }
  }
}
