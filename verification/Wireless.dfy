/** The access-point objects of a wifi device, reconciled with each scan. */
module Wireless {
  import opened Common
  import WpaScan

  datatype Net<H> = Net(handle: H, ap: WpaScan.AP<WpaScan.Ssid>)

  /**
    What a device knows, by object path: its list, its index by handle, what each object shows,
    which objects are on the bus, and the next number of the path generator.
   */
  datatype Registry<H> = Registry(aps: seq<Path>, byHandle: map<H, Path>, shows: map<Path, Net<H>>,
      exported: set<Path>, next: Path)

  const FRESH: Path := 1

  function Empty<H(==)>(): Registry<H> { Registry([], map[], map[], {}, FRESH) }

  // ---- one reconciliation ------------------------------------------------------------------------------

  datatype Draft<H> = Draft(list: seq<Path>, byHandle: map<H, Path>, added: seq<Path>, shows: map<Path, Net<H>>,
      next: Path)

  function Take<H(==)>(was: map<H, Path>, d: Draft<H>, n: Net<H>): Draft<H> {
    if n.handle in was then
      var p := was[n.handle];
      d.(list := d.list + [p], byHandle := d.byHandle[n.handle := p], shows := d.shows[p := n])
    else
      Draft(d.list + [d.next], d.byHandle[n.handle := d.next], d.added + [d.next], d.shows[d.next := n], d.next + 1)
  }

  function TakeAll<H(==)>(r: Registry<H>, nets: seq<Net<H>>): Draft<H> {
    if nets == [] then Draft([], map[], [], r.shows, r.next)
    else Take(r.byHandle, TakeAll(r, nets[..|nets| - 1]), nets[|nets| - 1])
  }

  function Handles<H(==)>(nets: seq<Net<H>>): set<H> {
    if nets == [] then {} else Handles(nets[..|nets| - 1]) + {nets[|nets| - 1].handle}
  }

  function Gone<H(==)>(r: Registry<H>, nets: seq<Net<H>>): set<Path> {
    set h | h in r.byHandle && h !in Handles(nets) :: r.byHandle[h]
  }

  function Added<H(==)>(r: Registry<H>, nets: seq<Net<H>>): set<Path> { set p | p in TakeAll(r, nets).added }

  function Populate<H(==)>(r: Registry<H>, nets: seq<Net<H>>): Registry<H> {
    var d := TakeAll(r, nets);
    Registry(d.list, d.byHandle, d.shows, r.exported + Added(r, nets) - Gone(r, nets), d.next)
  }

  lemma TakeAllNext<H>(r: Registry<H>, nets: seq<Net<H>>, i: nat)
    requires i < |nets|
    ensures TakeAll(r, nets[..i + 1]) == Take(r.byHandle, TakeAll(r, nets[..i]), nets[i])
    ensures Handles(nets[..i + 1]) == Handles(nets[..i]) + {nets[i].handle}
  {
    assert nets[..i + 1][..i] == nets[..i];
  }

  // ---- the objects ------------------------------------------------------------------------------------------

  class AccessPoint<H(==)> {
    const path: Path
    var last: Net<H>

    constructor (path: Path, n: Net<H>)
      ensures this.path == path && last == n
    {
      this.path, last := path, n;
    }

    method Update(n: Net<H>)
      modifies this
      ensures last == n
    {
      last := n;
    }
  }

  class WifiDevice<H(==)> {
    var aps: seq<AccessPoint<H>>
    var apByHandle: map<H, AccessPoint<H>>
    var next: Path
    var exported: set<Path>
    ghost var view: Registry<H>
    ghost var objects: map<Path, AccessPoint<H>>
    ghost var made: set<AccessPoint<H>>

    /** objects holds every access point made so far, each showing what shows says. */
    ghost predicate Known(shows: map<Path, Net<H>>)
      reads this, made
    {
      && objects.Keys == shows.Keys
      && (forall p <- objects :: p < next && objects[p] in made && objects[p].path == p && objects[p].last == shows[p])
    }

    ghost predicate Listed(list: seq<AccessPoint<H>>, paths: seq<Path>)
      reads this
    {
      |list| == |paths| && forall i :: 0 <= i < |list| ==> paths[i] in objects && list[i] == objects[paths[i]]
    }

    ghost predicate Indexed(index: map<H, AccessPoint<H>>, paths: map<H, Path>)
      reads this
    {
      index.Keys == paths.Keys && forall h <- index :: paths[h] in objects && index[h] == objects[paths[h]]
    }

    ghost predicate Valid()
      reads this, made
    {
      && Known(view.shows) && view.exported == exported && view.next == next
      && Listed(aps, view.aps) && Indexed(apByHandle, view.byHandle)
    }

    constructor ()
      ensures Valid() && view == Empty() && made == {}
    {
      aps, apByHandle, next, exported := [], map[], FRESH, {};
      view, objects, made := Empty(), map[], {};
    }

    /** The loop body of PopulateAPs: the object for one network, refreshed or new. */
    method TakeOne(n: Net<H>, was: map<H, AccessPoint<H>>, ghost paths: map<H, Path>, ghost d: Draft<H>)
      returns (ap: AccessPoint<H>, isNew: bool, ghost d1: Draft<H>, ghost born: set<AccessPoint<H>>)
      requires Known(d.shows) && next == d.next && Indexed(was, paths)
      modifies this`next, this`objects, this`made, made
      ensures d1 == Take(paths, d, n) && Known(d1.shows) && next == d1.next
      ensures fresh(born) && made == old(made) + born && Grown(old(objects))
      ensures d1.list[|d.list|] in objects && ap == objects[d1.list[|d.list|]]
      ensures isNew == (n.handle !in paths)
    {
      d1, born := Take(paths, d, n), {};
      if n.handle in was {
        ap, isNew := was[n.handle], false;
        ap.Update(n);
      } else {
        ap := new AccessPoint(next, n);
        isNew := true;
        objects := objects[next := ap];
        born := {ap};
        made := made + born;
        next := next + 1;
      }
    }

    ghost predicate Grown(before: map<Path, AccessPoint<H>>)
      reads this
    {
      forall p <- before :: p in objects && objects[p] == before[p]
    }

    /** The lists under construction stand for the draft d. */
    ghost predicate Drafted(list: seq<AccessPoint<H>>, index: map<H, AccessPoint<H>>, added: seq<AccessPoint<H>>,
        d: Draft<H>)
      reads this, made
    {
      Known(d.shows) && next == d.next && Listed(list, d.list) && Indexed(index, d.byHandle) && Listed(added, d.added)
    }

    method Consider(n: Net<H>, was: map<H, AccessPoint<H>>, ghost paths: map<H, Path>,
        list0: seq<AccessPoint<H>>, index0: map<H, AccessPoint<H>>, added0: seq<AccessPoint<H>>, ghost d: Draft<H>)
      returns (list: seq<AccessPoint<H>>, index: map<H, AccessPoint<H>>, added: seq<AccessPoint<H>>,
               ghost born: set<AccessPoint<H>>)
      requires Drafted(list0, index0, added0, d) && Indexed(was, paths)
      modifies this`next, this`objects, this`made, made
      ensures Drafted(list, index, added, Take(paths, d, n)) && Indexed(was, paths)
      ensures fresh(born) && made == old(made) + born
    {
      var ap, isNew;
      ghost var d1;
      ap, isNew, d1, born := TakeOne(n, was, paths, d);
      list, index := list0 + [ap], index0[n.handle := ap];
      added := if isNew then added0 + [ap] else added0;
    }

    method ConsiderAll(nets: seq<Net<H>>)
      returns (newList: seq<AccessPoint<H>>, newByHandle: map<H, AccessPoint<H>>, added: seq<AccessPoint<H>>,
               seen: set<H>, ghost born: set<AccessPoint<H>>)
      requires Valid()
      modifies this`next, this`objects, this`made, made
      ensures Drafted(newList, newByHandle, added, TakeAll(view, nets)) && Indexed(apByHandle, view.byHandle)
      ensures fresh(born) && made == old(made) + born && seen == Handles(nets)
    {
      newList, newByHandle, added, seen, born := [], map[], [], {}, {};
      ghost var d := TakeAll(view, []);
      for i := 0 to |nets|
        invariant Drafted(newList, newByHandle, added, d) && Indexed(apByHandle, view.byHandle)
        invariant d == TakeAll(view, nets[..i]) && seen == Handles(nets[..i])
        invariant fresh(born) && made == old(made) + born
      {
        ghost var more;
        TakeAllNext(view, nets, i);
        seen := seen + {nets[i].handle};
        newList, newByHandle, added, more :=
          Consider(nets[i], apByHandle, view.byHandle, newList, newByHandle, added, d);
        d := Take(view.byHandle, d, nets[i]);
        born := born + more;
      }
      assert nets[..|nets|] == nets;
    }

    method PopulateAPs(scan: Option<seq<Net<H>>>)
      requires Valid()
      modifies this, made
      ensures Valid() && fresh(made - old(made))
      ensures view == if scan.None? then old(view) else Populate(old(view), scan.value)
    {
      if scan.None? { return; }
      var newList, newByHandle, added, seen, born := ConsiderAll(scan.value);
      Publish(apByHandle, seen, newList, newByHandle, added, scan.value);
    }

    /** The end of PopulateAPs: replace the lists and bring the bus up to date. */
    method Publish(was: map<H, AccessPoint<H>>, seen: set<H>,
        list: seq<AccessPoint<H>>, index: map<H, AccessPoint<H>>, added: seq<AccessPoint<H>>, ghost nets: seq<Net<H>>)
      requires Drafted(list, index, added, TakeAll(view, nets)) && Indexed(was, view.byHandle)
        && exported == view.exported
      requires seen == Handles(nets)
      modifies this`aps, this`apByHandle, this`exported, this`view
      ensures Valid() && view == Populate(old(view), nets)
    {
      ghost var d := TakeAll(view, nets);
      var appeared := PathsOf(added, d.added);
      var removed := Vanished(was, seen, view, nets);
      aps, apByHandle := list, index;
      var bus := exported + appeared;
      bus := bus - removed;
      exported := bus;
      view := Populate(view, nets);
    }

    /** The paths of the objects in list. */
    method PathsOf(list: seq<AccessPoint<H>>, ghost paths: seq<Path>) returns (ps: set<Path>)
      requires Listed(list, paths) && forall p <- objects :: objects[p].path == p
      ensures ps == set p | p in paths
    {
      ps := {};
      for i := 0 to |list|
        invariant ps == set p | p in paths[..i]
      {
        assert paths[..i + 1] == paths[..i] + [paths[i]];
        ps := ps + {list[i].path};
      }
      assert paths[..|paths|] == paths;
    }

    /** The paths of the objects whose handle was not seen, taken in any order. */
    method Vanished(was: map<H, AccessPoint<H>>, seen: set<H>, ghost r: Registry<H>, ghost nets: seq<Net<H>>)
        returns (ps: set<Path>)
      requires Indexed(was, r.byHandle) && forall p <- objects :: objects[p].path == p
      requires seen == Handles(nets)
      ensures ps == Gone(r, nets)
    {
      ps := {};
      var left := was.Keys;
      while left != {}
        invariant left <= was.Keys
        invariant ps == set h | h in was.Keys - left && h !in seen :: r.byHandle[h]
        decreases left
      {
        var h :| h in left;
        if h !in seen { ps := ps + {was[h].path}; }
        left := left - {h};
      }
    }
  }

  // ---- the registry follows the scan --------------------------------------------------------------------------------

  predicate DistinctHandles<H(==)>(nets: seq<Net<H>>) {
    forall i, j :: 0 <= i < j < |nets| ==> nets[i].handle != nets[j].handle
  }

  predicate DistinctPaths(ps: seq<Path>) { forall i, j :: 0 <= i < j < |ps| ==> ps[i] != ps[j] }

  /** The list, the index and the bus agree, and every object shows the network it is indexed under. */
  ghost predicate InStep<H>(r: Registry<H>) {
    && DistinctPaths(r.aps) && r.exported == (set p | p in r.aps)
    && (forall p <- r.aps :: p < r.next && p in r.shows && r.shows[p].handle in r.byHandle
          && r.byHandle[r.shows[p].handle] == p)
    && (forall h <- r.byHandle :: r.byHandle[h] in r.aps && r.shows[r.byHandle[h]].handle == h)
  }

  /** The list shows exactly these networks, in this order. */
  ghost predicate Shows<H>(r: Registry<H>, nets: seq<Net<H>>) {
    |r.aps| == |nets| && forall i :: 0 <= i < |nets| ==> r.aps[i] in r.shows && r.shows[r.aps[i]] == nets[i]
  }

  lemma {:induction false} HandlesAre<H>(nets: seq<Net<H>>)
    ensures forall i :: 0 <= i < |nets| ==> nets[i].handle in Handles(nets)
    ensures forall h <- Handles(nets) :: exists i :: 0 <= i < |nets| && nets[i].handle == h
    decreases |nets|
  {
    if nets != [] {
      HandlesAre(nets[..|nets| - 1]);
    }
  }

  /** Network n has its object p in the draft d: its old one, or a new one. */
  predicate TracksAt<H(==)>(r: Registry<H>, d: Draft<H>, n: Net<H>, p: Path) {
    && p < d.next && p in d.shows && d.shows[p] == n
    && n.handle in d.byHandle && d.byHandle[n.handle] == p
    && (if n.handle in r.byHandle then p == r.byHandle[n.handle] else r.next <= p && p in d.added)
  }

  /** What a draft over the networks so far looks like. */
  ghost predicate Tracks<H>(r: Registry<H>, nets: seq<Net<H>>, d: Draft<H>) {
    && |d.list| == |nets| && d.next >= r.next && d.byHandle.Keys == Handles(nets)
    && (forall i :: 0 <= i < |nets| ==> TracksAt(r, d, nets[i], d.list[i]))
    && (forall p <- d.added :: r.next <= p && p in d.list)
  }

  lemma NotYetTaken<H>(r: Registry<H>, nets: seq<Net<H>>, d: Draft<H>, h: H)
    requires InStep(r) && Tracks(r, nets, d) && h !in Handles(nets) && h in r.byHandle
    ensures r.byHandle[h] !in d.list && r.byHandle[h] < r.next
  {
    HandlesAre(nets);
    assert r.byHandle[h] in r.aps;
    forall i | 0 <= i < |nets| ensures d.list[i] != r.byHandle[h] {
      var g := nets[i].handle;
      assert TracksAt(r, d, nets[i], d.list[i]);
      assert g in r.byHandle ==> r.shows[r.byHandle[g]].handle == g;
      assert r.shows[r.byHandle[h]].handle == h;
    }
  }

  lemma TracksMore<H>(r: Registry<H>, nets: seq<Net<H>>, d: Draft<H>, n: Net<H>)
    requires Tracks(r, nets, d) && n.handle !in Handles(nets)
    requires n.handle in r.byHandle ==> r.byHandle[n.handle] !in d.list && r.byHandle[n.handle] < r.next
    ensures Tracks(r, nets + [n], Take(r.byHandle, d, n))
  {
    HandlesMore(nets, n);
    EachTracked(r, nets, d, n);
    AddedListed(r, d, n);
  }

  lemma EachTracked<H>(r: Registry<H>, nets: seq<Net<H>>, d: Draft<H>, n: Net<H>)
    requires Tracks(r, nets, d) && n.handle !in Handles(nets)
    requires n.handle in r.byHandle ==> r.byHandle[n.handle] !in d.list && r.byHandle[n.handle] < r.next
    ensures
      var d1 := Take(r.byHandle, d, n);
      |d1.list| == |nets| + 1 && forall i :: 0 <= i < |nets| + 1 ==> TracksAt(r, d1, (nets + [n])[i], d1.list[i])
  {
    HandlesAre(nets);
    var d1 := Take(r.byHandle, d, n);
    forall i | 0 <= i < |nets| + 1 ensures TracksAt(r, d1, (nets + [n])[i], d1.list[i]) {
      if i < |nets| { OldStaysTracked(r, d, n, nets[i], d.list[i]); }
    }
  }

  lemma AddedListed<H>(r: Registry<H>, d: Draft<H>, n: Net<H>)
    requires r.next <= d.next && forall p <- d.added :: r.next <= p && p in d.list
    ensures forall p <- Take(r.byHandle, d, n).added :: r.next <= p && p in Take(r.byHandle, d, n).list
  {}

  lemma HandlesMore<H>(nets: seq<Net<H>>, n: Net<H>)
    ensures Handles(nets + [n]) == Handles(nets) + {n.handle}
  {
    assert (nets + [n])[..|nets|] == nets;
  }

  lemma OldStaysTracked<H>(r: Registry<H>, d: Draft<H>, n: Net<H>, m: Net<H>, p: Path)
    requires TracksAt(r, d, m, p) && n.handle != m.handle && r.next <= d.next && p in d.list
    requires n.handle in r.byHandle ==> r.byHandle[n.handle] !in d.list
    ensures TracksAt(r, Take(r.byHandle, d, n), m, p)
  {}

  lemma LastIsNew<H>(nets: seq<Net<H>>)
    requires nets != [] && DistinctHandles(nets)
    ensures DistinctHandles(nets[..|nets| - 1]) && nets[|nets| - 1].handle !in Handles(nets[..|nets| - 1])
  {
    HandlesAre(nets[..|nets| - 1]);
  }

  lemma {:induction false} TakeAllTracks<H>(r: Registry<H>, nets: seq<Net<H>>)
    requires InStep(r) && DistinctHandles(nets)
    ensures Tracks(r, nets, TakeAll(r, nets))
    decreases |nets|
  {
    if nets != [] {
      var front, n := nets[..|nets| - 1], nets[|nets| - 1];
      assert front + [n] == nets;
      LastIsNew(nets);
      TakeAllTracks(r, front);
      TracksOneMore(r, front, n);
    }
  }

  lemma TracksOneMore<H>(r: Registry<H>, front: seq<Net<H>>, n: Net<H>)
    requires InStep(r) && n.handle !in Handles(front) && Tracks(r, front, TakeAll(r, front))
    ensures Tracks(r, front + [n], TakeAll(r, front + [n]))
  {
    if n.handle in r.byHandle { NotYetTaken(r, front, TakeAll(r, front), n.handle); }
    TracksMore(r, front, TakeAll(r, front), n);
    TakeAllMore(r, front, n);
  }

  lemma TakeAllMore<H>(r: Registry<H>, front: seq<Net<H>>, n: Net<H>)
    ensures TakeAll(r, front + [n]) == Take(r.byHandle, TakeAll(r, front), n)
  {
    assert (front + [n])[..|front|] == front;
  }

  lemma ListDistinct<H>(r: Registry<H>, nets: seq<Net<H>>)
    requires InStep(r) && DistinctHandles(nets)
    ensures DistinctPaths(Populate(r, nets).aps)
  {
    TakeAllTracks(r, nets);
    var d := TakeAll(r, nets);
    forall i, j | 0 <= i < j < |nets| ensures d.list[i] != d.list[j] {
      assert TracksAt(r, d, nets[i], d.list[i]) && TracksAt(r, d, nets[j], d.list[j]);
    }
  }

  /** Added and removed are the exact differences, and a new path was never used before. */
  lemma ExactDifferences<H>(r: Registry<H>, nets: seq<Net<H>>)
    requires InStep(r) && DistinctHandles(nets)
    ensures
      var listed := set p | p in Populate(r, nets).aps;
      && Added(r, nets) == listed - r.exported && Gone(r, nets) == r.exported - listed
      && forall p <- Added(r, nets) :: r.next <= p < Populate(r, nets).next
  {
    TakeAllTracks(r, nets);
    var d := TakeAll(r, nets);
    var listed := set p | p in d.list;
    forall p ensures p in Added(r, nets) <==> p in listed && p !in r.exported {
      if p in listed {
        var i :| 0 <= i < |nets| && d.list[i] == p;
        assert nets[i].handle in r.byHandle ==> p in r.aps;
      }
    }
    forall p ensures p in Gone(r, nets) <==> p in r.exported && p !in listed {
      GoneIs(r, nets, p);
    }
  }

  lemma GoneIs<H>(r: Registry<H>, nets: seq<Net<H>>, p: Path)
    requires InStep(r) && Tracks(r, nets, TakeAll(r, nets))
    ensures p in Gone(r, nets) <==> p in r.exported && p !in TakeAll(r, nets).list
  {
    var d := TakeAll(r, nets);
    HandlesAre(nets);
    if p in r.exported {
      var h := r.shows[p].handle;
      assert p in r.aps && r.byHandle[h] == p;
      if h in Handles(nets) {
        var i :| 0 <= i < |nets| && nets[i].handle == h;
        assert d.list[i] == p;
        forall g | g in r.byHandle && r.byHandle[g] == p ensures g == h {
          assert r.shows[r.byHandle[g]].handle == g;
        }
      } else {
        NotYetTaken(r, nets, d, h);
      }
    }
  }

  /** After a scan the registry is in step again and shows exactly the scan; survivors keep their paths. */
  lemma PopulateInStep<H>(r: Registry<H>, nets: seq<Net<H>>)
    requires InStep(r) && DistinctHandles(nets)
    ensures InStep(Populate(r, nets)) && Shows(Populate(r, nets), nets)
    ensures Populate(r, nets).byHandle.Keys == Handles(nets)
    ensures forall h :: h in r.byHandle && h in Handles(nets) ==> Populate(r, nets).byHandle[h] == r.byHandle[h]
  {
    var q := Populate(r, nets);
    TakeAllTracks(r, nets);
    ListDistinct(r, nets);
    ExactDifferences(r, nets);
    HandlesAre(nets);
    var listed := set p | p in q.aps;
    assert q.exported == listed;
    forall p | p in q.aps
      ensures p < q.next && p in q.shows && q.shows[p].handle in q.byHandle && q.byHandle[q.shows[p].handle] == p
    {
      var i :| 0 <= i < |nets| && q.aps[i] == p;
    }
    forall h | h in q.byHandle ensures q.byHandle[h] in q.aps && q.shows[q.byHandle[h]].handle == h {
      var i :| 0 <= i < |nets| && nets[i].handle == h;
    }
  }

  function PopulateAll<H(==)>(r: Registry<H>, scans: seq<seq<Net<H>>>): Registry<H> {
    if scans == [] then r else Populate(PopulateAll(r, scans[..|scans| - 1]), scans[|scans| - 1])
  }

  /** However many scans there were, the objects on the bus are those of the last one, in its order. */
  lemma {:induction false} AlwaysInStep<H>(scans: seq<seq<Net<H>>>)
    requires forall nets <- scans :: DistinctHandles(nets)
    ensures
      var r := PopulateAll(Empty<H>(), scans);
      InStep(r) && Shows(r, if scans == [] then [] else scans[|scans| - 1])
    decreases |scans|
  {
    if scans != [] {
      AlwaysInStep(scans[..|scans| - 1]);
      PopulateInStep(PopulateAll(Empty<H>(), scans[..|scans| - 1]), scans[|scans| - 1]);
    }
  }

  // ---- repeated handles ------------------------------------------------------------------------------------

  /** A scan leaves the registry in step, showing it, exactly if no handle is repeated. */
  lemma InStepExactly<H>(r: Registry<H>, nets: seq<Net<H>>)
    requires InStep(r)
    ensures InStep(Populate(r, nets)) && Shows(Populate(r, nets), nets) <==> DistinctHandles(nets)
  {
    var q := Populate(r, nets);
    if DistinctHandles(nets) { PopulateInStep(r, nets); }
    if InStep(q) && Shows(q, nets) { ShowsDistinct(q, nets); }
  }

  lemma ShowsDistinct<H>(q: Registry<H>, nets: seq<Net<H>>)
    requires InStep(q) && Shows(q, nets)
    ensures DistinctHandles(nets)
  {
    forall i, j | 0 <= i < j < |nets| ensures nets[i].handle != nets[j].handle {
      assert q.aps[i] in q.aps && q.aps[j] in q.aps && q.aps[i] != q.aps[j];
    }
  }

  ghost predicate HasPath<H>(index: map<H, Path>, p: Path) { exists h :: h in index && index[h] == p }

  /** p is on the bus, but no handle leads to it. */
  ghost predicate Orphan<H>(r: Registry<H>, p: Path) { p in r.exported && !HasPath(r.byHandle, p) && p < r.next }

  /** Some object on the bus is an orphan. */
  ghost predicate Leaks<H>(r: Registry<H>) { exists p: Path :: Orphan(r, p) }

  /** Some handle that has no object yet occurs twice. */
  ghost predicate NewTwice<H>(r: Registry<H>, nets: seq<Net<H>>) {
    exists i, j :: 0 <= i < j < |nets| && nets[i].handle == nets[j].handle && nets[i].handle !in r.byHandle
  }

  /** How a draft over any networks, repeated or not, indexes old and new objects. */
  ghost predicate Indexes<H>(r: Registry<H>, nets: seq<Net<H>>, d: Draft<H>) {
    && d.byHandle.Keys == Handles(nets) && r.next <= d.next
    && (forall h <- d.byHandle :: if h in r.byHandle then d.byHandle[h] == r.byHandle[h] else d.byHandle[h] in d.added)
    && (forall g, h | g in d.byHandle && h in d.byHandle && d.byHandle[g] == d.byHandle[h] :: g == h)
    && (forall p <- d.added :: r.next <= p < d.next)
  }

  /** A new object that the draft made and no longer leads to. */
  ghost predicate Lost<H>(d: Draft<H>, p: Path) { p in d.added && !HasPath(d.byHandle, p) }

  lemma IndexesMore<H>(r: Registry<H>, nets: seq<Net<H>>, d: Draft<H>, n: Net<H>)
    requires InStep(r) && Indexes(r, nets, d)
    ensures Indexes(r, nets + [n], Take(r.byHandle, d, n))
  {
    assert (nets + [n])[..|nets|] == nets;
    forall h | h in r.byHandle ensures r.byHandle[h] < r.next {
      assert r.byHandle[h] in r.aps;
    }
    forall g, h | g in r.byHandle && h in r.byHandle && r.byHandle[g] == r.byHandle[h] ensures g == h {
      assert r.shows[r.byHandle[g]].handle == g && r.shows[r.byHandle[h]].handle == h;
    }
  }

  lemma OldIsLow<H>(r: Registry<H>, h: H)
    requires InStep(r) && h in r.byHandle
    ensures r.byHandle[h] < r.next && r.byHandle[h] in r.exported
  {
    assert r.byHandle[h] in r.aps;
  }

  /** One more network loses an object exactly if its handle is new and was taken before. */
  lemma LostMore<H>(r: Registry<H>, nets: seq<Net<H>>, d: Draft<H>, n: Net<H>)
    requires InStep(r) && Indexes(r, nets, d)
    ensures
      var d1 := Take(r.byHandle, d, n);
      (exists p :: Lost(d1, p)) <==> (exists p :: Lost(d, p)) || (n.handle !in r.byHandle && n.handle in Handles(nets))
  {
    var d1 := Take(r.byHandle, d, n);
    if n.handle !in r.byHandle && n.handle in Handles(nets) {
      var p := d.byHandle[n.handle];
      forall h | h in d1.byHandle ensures d1.byHandle[h] != p {}
      assert Lost(d1, p);
    }
    forall p | Lost(d, p) ensures Lost(d1, p) {
      if n.handle in r.byHandle { OldIsLow(r, n.handle); }
    }
    forall p | Lost(d1, p) && (n.handle in r.byHandle || n.handle !in Handles(nets)) ensures Lost(d, p) {
      assert n.handle in d1.byHandle && d1.byHandle[n.handle] != p;
      forall h | h in d.byHandle ensures d.byHandle[h] != p {
        assert h in d1.byHandle && d1.byHandle[h] == d.byHandle[h];
      }
    }
  }

  lemma TwiceMore<H>(r: Registry<H>, nets: seq<Net<H>>, n: Net<H>)
    ensures NewTwice(r, nets + [n]) <==> NewTwice(r, nets) || (n.handle !in r.byHandle && n.handle in Handles(nets))
  {
    HandlesAre(nets);
    var more := nets + [n];
    if NewTwice(r, nets) {
      var i, j :| 0 <= i < j < |nets| && nets[i].handle == nets[j].handle && nets[i].handle !in r.byHandle;
      assert more[i] == nets[i] && more[j] == nets[j];
    }
    if n.handle !in r.byHandle && n.handle in Handles(nets) {
      var i :| 0 <= i < |nets| && nets[i].handle == n.handle;
      assert more[i] == nets[i] && more[|nets|] == n;
    }
    if NewTwice(r, more) {
      var i, j :| 0 <= i < j < |more| && more[i].handle == more[j].handle && more[i].handle !in r.byHandle;
      assert more[i] == nets[i] && (j < |nets| ==> more[j] == nets[j]);
    }
  }

  lemma {:induction false} LostExactly<H>(r: Registry<H>, nets: seq<Net<H>>)
    requires InStep(r)
    ensures Indexes(r, nets, TakeAll(r, nets)) && ((exists p :: Lost(TakeAll(r, nets), p)) <==> NewTwice(r, nets))
    decreases |nets|
  {
    if nets != [] {
      var front, n := nets[..|nets| - 1], nets[|nets| - 1];
      assert front + [n] == nets;
      LostExactly(r, front);
      TakeAllMore(r, front, n);
      IndexesMore(r, front, TakeAll(r, front), n);
      LostMore(r, front, TakeAll(r, front), n);
      TwiceMore(r, front, n);
    }
  }

  /** A scan leaks an object exactly if a handle that had none is repeated; a repeated old one is only listed twice. */
  lemma LeaksExactly<H>(r: Registry<H>, nets: seq<Net<H>>)
    requires InStep(r)
    ensures Leaks(Populate(r, nets)) <==> NewTwice(r, nets)
  {
    var q, d := Populate(r, nets), TakeAll(r, nets);
    LostExactly(r, nets);
    if NewTwice(r, nets) {
      var p :| Lost(d, p);
      OrphanIsLost(r, nets, p);
    }
    if Leaks(q) {
      var p: Path :| Orphan(q, p);
      OrphanIsLost(r, nets, p);
    }
  }

  lemma OrphanIsLost<H>(r: Registry<H>, nets: seq<Net<H>>, p: Path)
    requires InStep(r) && Indexes(r, nets, TakeAll(r, nets))
    ensures Orphan(Populate(r, nets), p) <==> Lost(TakeAll(r, nets), p)
  {
    var q, d := Populate(r, nets), TakeAll(r, nets);
    if p in r.exported {
      assert p in r.aps;
      var h := r.shows[p].handle;
      if h in Handles(nets) {
        assert d.byHandle[h] == p;
      } else {
        assert p in Gone(r, nets);
      }
    }
    if p in Gone(r, nets) {
      var h :| h in r.byHandle && r.byHandle[h] == p;
      OldIsLow(r, h);
    }
  }

  /** Nothing removes a leaked object: it is an orphan after every later scan. */
  lemma OrphanStays<H>(r: Registry<H>, nets: seq<Net<H>>, p: Path)
    requires Orphan(r, p)
    ensures Orphan(Populate(r, nets), p)
  {
    OldOrNew(r, nets);
    var q := Populate(r, nets);
    forall h | h in q.byHandle ensures q.byHandle[h] != p {
      if q.byHandle[h] < r.next {
        assert HasPath(r.byHandle, q.byHandle[h]);
      }
    }
    forall h | h in r.byHandle ensures r.byHandle[h] != p {
      assert HasPath(r.byHandle, r.byHandle[h]);
    }
  }

  lemma {:induction false} OldOrNew<H>(r: Registry<H>, nets: seq<Net<H>>)
    ensures
      var d := TakeAll(r, nets);
      r.next <= d.next && forall h <- d.byHandle :: r.next <= d.byHandle[h] || HasPath(r.byHandle, d.byHandle[h])
    decreases |nets|
  {
    if nets != [] {
      OldOrNew(r, nets[..|nets| - 1]);
      var n := nets[|nets| - 1];
      assert n.handle in r.byHandle ==> HasPath(r.byHandle, r.byHandle[n.handle]);
    }
  }

  lemma {:induction false} OrphanForever<H>(r: Registry<H>, scans: seq<seq<Net<H>>>, p: Path)
    requires Orphan(r, p)
    ensures Orphan(PopulateAll(r, scans), p)
    decreases |scans|
  {
    if scans != [] {
      OrphanForever(r, scans[..|scans| - 1], p);
      OrphanStays(PopulateAll(r, scans[..|scans| - 1]), scans[|scans| - 1], p);
    }
  }

  // ---- the wpa backend ------------------------------------------------------------------------------------

  /** OrderedNetworks of the wpa backend: the SSID is the handle. */
  function WpaNets(text: seq<byte>): seq<Net<WpaScan.Ssid>> {
    var aps := WpaScan.Scan(text);
    seq(|aps|, i requires 0 <= i < |aps| => Net(aps[i].ssid, aps[i]))
  }

  lemma WpaHandlesDistinct(text: seq<byte>)
    ensures DistinctHandles(WpaNets(text))
  {
    WpaScan.ScanIsRight(text, 0);
  }

  function WpaScans(texts: seq<seq<byte>>): seq<seq<Net<WpaScan.Ssid>>> {
    seq(|texts|, i requires 0 <= i < |texts| => WpaNets(texts[i]))
  }

  /** So whatever the supplicant reports, the objects on the bus are the networks of the last report. */
  lemma WpaAlwaysInStep(texts: seq<seq<byte>>)
    requires texts != []
    ensures
      var r := PopulateAll(Empty<WpaScan.Ssid>(), WpaScans(texts));
      InStep(r) && Shows(r, WpaNets(texts[|texts| - 1]))
  {
    var scans := WpaScans(texts);
    forall i | 0 <= i < |texts| ensures DistinctHandles(scans[i]) {
      WpaHandlesDistinct(texts[i]);
    }
    EndsInStep(scans);
  }

  lemma EndsInStep<H>(scans: seq<seq<Net<H>>>)
    requires scans != [] && forall i :: 0 <= i < |scans| ==> DistinctHandles(scans[i])
    ensures InStep(PopulateAll(Empty<H>(), scans)) && Shows(PopulateAll(Empty<H>(), scans), scans[|scans| - 1])
  {
    AlwaysInStep(scans);
  }
}
