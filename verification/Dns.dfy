/** The resolver file: per-interface entries merged into one body by sorting, deduping and capping. */
module Dns {
  import opened Common
  import opened Sorting
  import opened Text

  const MARKER := "# managed by sinty-nm"
  const MAX_SERVERS := 3
  const MAX_DOMAINS := 6
  const MAX_SEARCH := 256

  type IP = seq<byte>

  datatype Entry = Entry(iface: string, priority: int, servers: seq<IP>, domains: seq<string>)

  // ---- the order of entries ---------------------------------------------------------------------------

  predicate EntryAtMost(a: Entry, b: Entry) {
    a.priority < b.priority || (a.priority == b.priority && AtMost(a.iface, b.iface))
  }

  predicate Keyed(m: map<string, Entry>) { forall k <- m :: m[k].iface == k }

  /** All entries by priority, then interface name. */
  ghost function Ordered(m: map<string, Entry>): seq<Entry> { Sort(EntryAtMost, Enumerate(m.Values)) }

  lemma EntriesLinear(m: map<string, Entry>, es: seq<Entry>)
    requires Keyed(m) && forall e <- es :: e in m.Values
    ensures Linear(EntryAtMost, es)
  {
    forall a, b | a in es && b in es
      ensures (EntryAtMost(a, b) || EntryAtMost(b, a)) && (EntryAtMost(a, b) && EntryAtMost(b, a) ==> a == b)
    {
      OrderTotal(a.iface, b.iface);
      var j, k :| j in m && m[j] == a && k in m && m[k] == b;
    }
    forall a, b, c | EntryAtMost(a, b) && EntryAtMost(b, c) ensures EntryAtMost(a, c) {
      if a.priority == c.priority { OrderTransitive(a.iface, b.iface, c.iface); }
    }
  }

  /** Any way of listing the entries sorts to the same sequence, which is sorted and holds them all. */
  lemma OrderedWhateverTheOrder(m: map<string, Entry>, es: seq<Entry>)
    requires Keyed(m) && multiset(es) == multiset(m.Values)
    ensures Sort(EntryAtMost, es) == Ordered(m) && Sorted(EntryAtMost, Ordered(m))
    ensures forall e :: e in Ordered(m) <==> e in m.Values
  {
    var all := Enumerate(m.Values);
    EnumerateAll(m.Values);
    SameElements(es, all);
    forall e ensures e in es <==> e in m.Values {
      assert e in es <==> e in multiset(es);
      assert e in m.Values <==> e in multiset(m.Values);
    }
    EntriesLinear(m, es);
    SortForgetsOrder(EntryAtMost, es, all);
    SortSorts(EntryAtMost, es);
    SortHolds(EntryAtMost, es);
    SameElements(es, Sort(EntryAtMost, es));
  }

  // ---- servers and domains ---------------------------------------------------------------------------------

  /** First occurrences, in order. */
  function Dedup(xs: seq<string>): (r: seq<string>)
    ensures forall x :: x in r <==> x in xs
    ensures forall i, j :: 0 <= i < j < |r| ==> r[i] != r[j]
  {
    if xs == [] then []
    else
      var r := Dedup(xs[..|xs| - 1]);
      assert xs == xs[..|xs| - 1] + [xs[|xs| - 1]];
      if xs[|xs| - 1] in r then r else r + [xs[|xs| - 1]]
  }

  /** What comes earlier in the list comes earlier in the result. */
  lemma {:induction false} DedupGrows(xs: seq<string>, ys: seq<string>)
    ensures Dedup(xs) <= Dedup(xs + ys)
    decreases |ys|
  {
    if ys == [] {
      assert xs + ys == xs;
    } else {
      var n := |ys| - 1;
      DedupGrows(xs, ys[..n]);
      assert (xs + ys)[..|xs + ys| - 1] == xs + ys[..n];
    }
  }

  lemma DedupMore(xs: seq<string>, x: string)
    ensures Dedup(xs + [x]) == if x in xs then Dedup(xs) else Dedup(xs) + [x]
  {
    assert (xs + [x])[..|xs|] == xs;
  }

  predicate ValidIP(ip: IP) { |ip| == 4 || |ip| == 16 }

  /** The printed forms of the valid addresses. */
  function Texts(show: IP -> string, ips: seq<IP>): seq<string> {
    if ips == [] then []
    else Texts(show, ips[..|ips| - 1]) + (if ValidIP(ips[|ips| - 1]) then [show(ips[|ips| - 1])] else [])
  }

  function Cleaned(ds: seq<string>): (r: seq<string>)
    ensures "" !in r
  {
    if ds == [] then [] else Cleaned(ds[..|ds| - 1]) + Word(Trim(ds[|ds| - 1]))
  }

  function AllTexts(show: IP -> string, es: seq<Entry>): seq<string> {
    if es == [] then [] else AllTexts(show, es[..|es| - 1]) + Texts(show, es[|es| - 1].servers)
  }

  function AllDomains(es: seq<Entry>): (r: seq<string>)
    ensures "" !in r
  {
    if es == [] then [] else AllDomains(es[..|es| - 1]) + Cleaned(es[|es| - 1].domains)
  }

  function Take(xs: seq<string>, n: nat): (r: seq<string>)
    ensures r <= xs && |r| == if |xs| <= n then |xs| else n
  {
    if |xs| <= n then xs else xs[..n]
  }

  function Utf8Len(s: string): nat {
    if s == "" then 0
    else
      var n := s[|s| - 1] as int;
      Utf8Len(s[..|s| - 1]) + (if n < 0x80 then 1 else if n < 0x800 then 2 else if n < 0x10000 then 3 else 4)
  }

  /** Bytes of the domains, each with a separator. */
  function Cost(ds: seq<string>): nat {
    if ds == [] then 0 else Cost(ds[..|ds| - 1]) + Utf8Len(ds[|ds| - 1]) + 1
  }

  /** Drop domains from the end until the rest fits the search line. */
  function Shrink(ds: seq<string>): (r: seq<string>)
    ensures r <= ds && Cost(r) <= MAX_SEARCH
  {
    if Cost(ds) <= MAX_SEARCH then ds else Shrink(ds[..|ds| - 1])
  }

  function Fit(ds: seq<string>): seq<string> { Shrink(Take(ds, MAX_DOMAINS)) }

  lemma {:induction false} CostGrows(ds: seq<string>, n: nat, m: nat)
    requires n <= m <= |ds|
    ensures Cost(ds[..n]) <= Cost(ds[..m])
    decreases m
  {
    if n < m {
      CostGrows(ds, n, m - 1);
      assert ds[..m][..m - 1] == ds[..m - 1];
    }
  }

  lemma {:induction false} ShrinkIsLongest(ds: seq<string>, p: seq<string>)
    requires p <= ds && Cost(p) <= MAX_SEARCH
    ensures p <= Shrink(ds)
    decreases |ds|
  {
    if Cost(ds) > MAX_SEARCH {
      assert p != ds;
      ShrinkIsLongest(ds[..|ds| - 1], p);
    }
  }

  /** The domains kept are the longest prefix within both limits. */
  lemma FitIsLongest(ds: seq<string>, p: seq<string>)
    requires p <= ds
    ensures p <= Fit(ds) <==> |p| <= MAX_DOMAINS && Cost(p) <= MAX_SEARCH
  {
    if |p| <= MAX_DOMAINS && Cost(p) <= MAX_SEARCH {
      ShrinkIsLongest(Take(ds, MAX_DOMAINS), p);
    }
    if p <= Fit(ds) {
      CostGrows(ds, |p|, |Fit(ds)|);
      assert ds[..|p|] == p && ds[..|Fit(ds)|] == Fit(ds);
    }
  }

  // ---- the file ------------------------------------------------------------------------------------------------

  function ServerLines(ss: seq<string>, rest: string): string {
    if ss == [] then rest else "nameserver " + ss[0] + "\n" + ServerLines(ss[1..], rest)
  }

  function SearchLine(ds: seq<string>): string { if ds == [] then "" else "search " + Join(ds) + "\n" + "" }

  function Body(ss: seq<string>, ds: seq<string>): string { MARKER + "\n" + ServerLines(ss, SearchLine(ds)) }

  ghost function Servers(show: IP -> string, m: map<string, Entry>): seq<string> {
    Take(Dedup(AllTexts(show, Ordered(m))), MAX_SERVERS)
  }

  ghost function Domains(m: map<string, Entry>): (ds: seq<string>)
    ensures "" !in ds
  {
    Fit(Dedup(AllDomains(Ordered(m))))
  }

  /** The body is a function of the entries alone. */
  ghost function Contents(show: IP -> string, m: map<string, Entry>): string { Body(Servers(show, m), Domains(m)) }

  class DnsManager {
    const show: IP -> string
    var entries: map<string, Entry>
    var file: Option<string>

    ghost predicate Valid()
      reads this
    {
      Keyed(entries)
    }

    constructor (show: IP -> string, file: Option<string>)
      ensures Valid() && entries == map[] && this.show == show && this.file == file
    {
      this.show, entries, this.file := show, map[], file;
    }

    /** writable says whether the file can be replaced; the entries change either way. */
    method Set(entry: Entry, writable: bool) returns (ok: bool)
      requires Valid()
      modifies this
      ensures Valid() && entries == old(entries)[entry.iface := entry] && ok == writable
      ensures file == if writable then Some(Contents(show, entries)) else old(file)
    {
      entries := entries[entry.iface := entry];
      ok := Rewrite(writable);
    }

    method Revert(iface: string, writable: bool) returns (ok: bool)
      requires Valid()
      modifies this
      ensures Valid() && entries == old(entries) - {iface} && ok == writable
      ensures file == if writable then Some(Contents(show, entries)) else old(file)
    {
      entries := entries - {iface};
      ok := Rewrite(writable);
    }

    method Rewrite(writable: bool) returns (ok: bool)
      requires Valid()
      modifies this`file
      ensures ok == writable && file == if writable then Some(Contents(show, entries)) else old(file)
    {
      var body := Render();
      if writable { file := Some(body); }
      ok := writable;
    }

    method Render() returns (body: string)
      requires Valid()
      ensures body == Contents(show, entries)
    {
      var es := Collect();
      es := Sort(EntryAtMost, es);
      var servers := MergeServers(show, es);
      if |servers| > MAX_SERVERS { servers := servers[..MAX_SERVERS]; }
      var domains := MergeDomains(es);
      if |domains| > MAX_DOMAINS { domains := domains[..MAX_DOMAINS]; }
      domains := CutToLine(domains);
      body := Print(servers, domains);
    }

    /** The map's entries in an arbitrary order. */
    method Collect() returns (es: seq<Entry>)
      requires Valid()
      ensures Sort(EntryAtMost, es) == Ordered(entries)
    {
      es := [];
      var left := entries.Keys;
      ghost var done: set<Entry> := {};
      while left != {}
        invariant left <= entries.Keys && multiset(es) == multiset(done)
        invariant forall e :: e in done <==> exists k :: k in entries && k !in left && entries[k] == e
        decreases left
      {
        var k :| k in left;
        assert entries[k] !in done;
        done := done + {entries[k]};
        es := es + [entries[k]];
        left := left - {k};
      }
      assert done == entries.Values;
      OrderedWhateverTheOrder(entries, es);
    }
  }

  method Print(servers: seq<string>, domains: seq<string>) returns (body: string)
    ensures body == Body(servers, domains)
  {
    body := MARKER + "\n";
    ghost var search := SearchLine(domains);
    for i := 0 to |servers|
      invariant body + ServerLines(servers[i..], search) == Body(servers, domains)
    {
      assert servers[i..][1..] == servers[i + 1..];
      var line := "nameserver " + servers[i] + "\n";
      assert body + (line + ServerLines(servers[i + 1..], search))
        == body + line + ServerLines(servers[i + 1..], search);
      body := body + line;
    }
    if |domains| > 0 {
      body := body + ("search " + Join(domains) + "\n");
    }
  }

  method MergeServers(show: IP -> string, es: seq<Entry>) returns (servers: seq<string>)
    ensures servers == Dedup(AllTexts(show, es))
  {
    servers := [];
    var seen: set<string> := {};
    for i := 0 to |es|
      invariant servers == Dedup(AllTexts(show, es[..i])) && SeenAll(seen, AllTexts(show, es[..i]))
    {
      assert es[..i + 1][..i] == es[..i];
      servers, seen := AddServers(show, es[i].servers, servers, seen, AllTexts(show, es[..i]));
    }
    assert es[..|es|] == es;
  }

  ghost predicate SeenAll(seen: set<string>, all: seq<string>) { forall x :: x in seen <==> x in all }

  /** The inner loop of MergeServers. */
  method AddServers(show: IP -> string, ips: seq<IP>, servers0: seq<string>, seen0: set<string>,
      ghost before: seq<string>)
    returns (servers: seq<string>, seen: set<string>)
    requires servers0 == Dedup(before) && SeenAll(seen0, before)
    ensures servers == Dedup(before + Texts(show, ips)) && SeenAll(seen, before + Texts(show, ips))
  {
    servers, seen := servers0, seen0;
    ghost var all := before;
    assert before + [] == before;
    for j := 0 to |ips|
      invariant all == before + Texts(show, ips[..j]) && servers == Dedup(all) && SeenAll(seen, all)
    {
      assert ips[..j + 1][..j] == ips[..j];
      if |ips[j]| != 4 && |ips[j]| != 16 {
        assert Texts(show, ips[..j + 1]) == Texts(show, ips[..j]) + [];
        continue;
      }
      var s := show(ips[j]);
      assert before + (Texts(show, ips[..j]) + [s]) == all + [s];
      DedupMore(all, s);
      all := all + [s];
      if s in seen { continue; }
      seen := seen + {s};
      servers := servers + [s];
    }
    assert ips[..|ips|] == ips;
  }

  method MergeDomains(es: seq<Entry>) returns (domains: seq<string>)
    ensures domains == Dedup(AllDomains(es))
  {
    domains := [];
    var seen: set<string> := {};
    for i := 0 to |es|
      invariant domains == Dedup(AllDomains(es[..i])) && SeenAll(seen, AllDomains(es[..i]))
    {
      assert es[..i + 1][..i] == es[..i];
      domains, seen := AddDomains(es[i].domains, domains, seen, AllDomains(es[..i]));
    }
    assert es[..|es|] == es;
  }

  lemma CleanedMore(before: seq<string>, ds: seq<string>, j: nat)
    requires j < |ds|
    ensures before + Cleaned(ds[..j + 1])
         == if Trim(ds[j]) == "" then before + Cleaned(ds[..j]) else before + Cleaned(ds[..j]) + [Trim(ds[j])]
  {
    assert ds[..j + 1][..j] == ds[..j];
    assert Cleaned(ds[..j + 1]) == Cleaned(ds[..j]) + Word(Trim(ds[j]));
  }

  /** The inner loop of MergeDomains. */
  method AddDomains(ds: seq<string>, domains0: seq<string>, seen0: set<string>, ghost before: seq<string>)
    returns (domains: seq<string>, seen: set<string>)
    requires domains0 == Dedup(before) && SeenAll(seen0, before)
    ensures domains == Dedup(before + Cleaned(ds)) && SeenAll(seen, before + Cleaned(ds))
  {
    domains, seen := domains0, seen0;
    ghost var all := before;
    assert before + [] == before;
    for j := 0 to |ds|
      invariant all == before + Cleaned(ds[..j]) && domains == Dedup(all) && SeenAll(seen, all)
    {
      var d := Trim(ds[j]);
      CleanedMore(before, ds, j);
      if d == "" { continue; }
      DedupMore(all, d);
      all := all + [d];
      if d in seen { continue; }
      seen := seen + {d};
      domains := domains + [d];
    }
    assert ds[..|ds|] == ds;
  }

  method CutToLine(ds: seq<string>) returns (r: seq<string>)
    ensures r == Shrink(ds)
  {
    var total := 0;
    for i := 0 to |ds|
      invariant total == Cost(ds[..i]) <= MAX_SEARCH
    {
      assert ds[..i + 1][..i] == ds[..i];
      total := total + (Utf8Len(ds[i]) + 1);
      if total > MAX_SEARCH {
        ShrinkStops(ds, i);
        return ds[..i];
      }
    }
    assert ds[..|ds|] == ds;
    r := ds;
  }

  lemma {:induction false} ShrinkStops(ds: seq<string>, i: nat)
    requires i < |ds| && Cost(ds[..i]) <= MAX_SEARCH < Cost(ds[..i + 1])
    ensures Shrink(ds) == ds[..i]
    decreases |ds|
  {
    CostGrows(ds, i + 1, |ds|);
    assert ds[..|ds|] == ds;
    var front := ds[..|ds| - 1];
    if i < |ds| - 1 {
      assert front[..i] == ds[..i] && front[..i + 1] == ds[..i + 1];
      ShrinkStops(front, i);
    }
  }

  // ---- what the file promises --------------------------------------------------------------------------------------

  /** Interfaces do not interfere: the order in which two of them report does not matter. */
  lemma SetsCommute(show: IP -> string, m: map<string, Entry>, a: Entry, b: Entry)
    requires a.iface != b.iface
    ensures Contents(show, m[a.iface := a][b.iface := b]) == Contents(show, m[b.iface := b][a.iface := a])
  {
    assert m[a.iface := a][b.iface := b] == m[b.iface := b][a.iface := a];
  }

  /** Taking back what a fresh interface reported restores the file. */
  lemma SetRevertRestores(show: IP -> string, m: map<string, Entry>, e: Entry)
    requires e.iface !in m
    ensures Contents(show, m[e.iface := e] - {e.iface}) == Contents(show, m)
  {
    assert m[e.iface := e] - {e.iface} == m;
  }

  /** A resolver's reading of the file: all nameserver lines, and the last search line. */
  function ServersIn(ls: seq<string>): seq<string> {
    if ls == [] then [] else (if "nameserver " <= ls[0] then [ls[0][11..]] else []) + ServersIn(ls[1..])
  }

  function SearchIn(ls: seq<string>, found: seq<string>): seq<string> {
    if ls == [] then found else SearchIn(ls[1..], if "search " <= ls[0] then Fields(ls[0][7..]) else found)
  }

  /** One server line at the front, against the rest of the file. */
  lemma ServerLineFirst(ss: seq<string>, rest: string)
    requires ss != [] && '\n' !in ss[0]
    ensures
      var all, tail := Lines(ServerLines(ss, rest)), Lines(ServerLines(ss[1..], rest));
      ServersIn(all) == [ss[0]] + ServersIn(tail) && SearchIn(all, []) == SearchIn(tail, [])
  {
    FirstLine("nameserver " + ss[0], ServerLines(ss[1..], rest));
    ServerLineParses(ss[0], Lines(ServerLines(ss[1..], rest)));
  }

  lemma {:induction false} ServerLinesParse(ss: seq<string>, rest: string)
    requires forall s <- ss :: '\n' !in s
    ensures ServersIn(Lines(ServerLines(ss, rest))) == ss + ServersIn(Lines(rest))
    ensures SearchIn(Lines(ServerLines(ss, rest)), []) == SearchIn(Lines(rest), [])
    decreases |ss|
  {
    if ss != [] {
      ServerLineFirst(ss, rest);
      ServerLinesParse(ss[1..], rest);
      HeadTail(ss, ServersIn(Lines(rest)));
    }
  }

  lemma HeadTail(xs: seq<string>, more: seq<string>)
    requires xs != []
    ensures [xs[0]] + (xs[1..] + more) == xs + more
  {}

  lemma ServerLineParses(s: string, ls: seq<string>)
    ensures ServersIn(["nameserver " + s] + ls) == [s] + ServersIn(ls)
    ensures SearchIn(["nameserver " + s] + ls, []) == SearchIn(ls, [])
  {
    var line := "nameserver " + s;
    FirstParses(line, ls);
    assert line[11..] == s && line[0] == 'n';
  }

  lemma FirstParses(line: string, ls: seq<string>)
    ensures ServersIn([line] + ls) == (if "nameserver " <= line then [line[11..]] else []) + ServersIn(ls)
    ensures SearchIn([line] + ls, []) == SearchIn(ls, if "search " <= line then Fields(line[7..]) else [])
  {
    assert ([line] + ls)[1..] == ls;
  }

  lemma SearchLineParses(ds: seq<string>)
    requires "" !in ds && forall d <- ds :: NoSpace(d)
    ensures ServersIn(Lines(SearchLine(ds))) == [] && SearchIn(Lines(SearchLine(ds)), []) == ds
  {
    EmptyParses();
    if ds != [] {
      var line := "search " + Join(ds);
      JoinHasNoLineFeed(ds);
      FirstLine(line, "");
      FirstParses(line, Lines(""));
      assert line[7..] == Join(ds) && line[0] == 's';
      FieldsOfJoin(ds);
    }
  }

  lemma EmptyParses()
    ensures ServersIn(Lines("")) == [] && forall found :: SearchIn(Lines(""), found) == found
  {
    assert Lines("") == [""] && [""][1..] == [];
  }

  lemma {:induction false} SearchHasNoSpace(ls: seq<string>, found: seq<string>)
    requires forall d <- found :: NoSpace(d)
    ensures forall d <- SearchIn(ls, found) :: NoSpace(d)
    decreases |ls|
  {
    if ls != [] {
      if "search " <= ls[0] {
        FieldsHaveNoSpace("", ls[0][7..]);
        SearchHasNoSpace(ls[1..], Fields(ls[0][7..]));
      } else {
        SearchHasNoSpace(ls[1..], found);
      }
    }
  }

  /** Reading the body recovers both lists exactly when no domain holds white space. */
  lemma BodyParses(ss: seq<string>, ds: seq<string>)
    requires (forall s <- ss :: '\n' !in s) && "" !in ds
    ensures
      var ls := Lines(Body(ss, ds));
      ServersIn(ls) == ss && SearchIn(ls, []) == ds <==> forall d <- ds :: NoSpace(d)
  {
    var rest := ServerLines(ss, SearchLine(ds));
    FirstLine(MARKER, rest);
    FirstParses(MARKER, Lines(rest));
    assert MARKER[0] == '#';
    ServerLinesParse(ss, SearchLine(ds));
    if forall d <- ds :: NoSpace(d) {
      SearchLineParses(ds);
    }
    SearchHasNoSpace(Lines(Body(ss, ds)), []);
  }

  /** So does reading the file that any set of entries renders to. */
  lemma FileParses(show: IP -> string, m: map<string, Entry>)
    requires forall ip :: '\n' !in show(ip)
    ensures
      var ls := Lines(Contents(show, m));
      ServersIn(ls) == Servers(show, m) && SearchIn(ls, []) == Domains(m) <==> forall d <- Domains(m) :: NoSpace(d)
  {
    var es := Ordered(m);
    TextsShown(show, es);
    forall s <- Servers(show, m) ensures '\n' !in s {
      assert s in Dedup(AllTexts(show, es));
    }
    BodyParses(Servers(show, m), Domains(m));
  }

  lemma {:induction false} TextsShown(show: IP -> string, es: seq<Entry>)
    ensures forall s <- AllTexts(show, es) :: exists ip :: ValidIP(ip) && s == show(ip)
    decreases |es|
  {
    if es != [] {
      TextsShown(show, es[..|es| - 1]);
      ServersShown(show, es[|es| - 1].servers);
    }
  }

  lemma {:induction false} ServersShown(show: IP -> string, ips: seq<IP>)
    ensures forall s <- Texts(show, ips) :: exists ip :: ValidIP(ip) && s == show(ip)
    decreases |ips|
  {
    if ips != [] {
      ServersShown(show, ips[..|ips| - 1]);
    }
  }

  // ---- which servers and domains, and in which order -------------------------------------------------------

  /** The entries stand by ascending priority, those of one priority by interface name. */
  lemma OrderedByPriority(m: map<string, Entry>, i: nat, j: nat)
    requires Keyed(m) && i < j < |Ordered(m)|
    ensures
      var a, b := Ordered(m)[i], Ordered(m)[j];
      a.priority < b.priority || (a.priority == b.priority && AtMost(a.iface, b.iface))
  {
    EnumerateAll(m.Values);
    OrderedWhateverTheOrder(m, Enumerate(m.Values));
  }

  /** The words that cut turns entries into, up to item j of entry i. */
  ghost function Before(cut: Entry -> seq<Option<string>>, es: seq<Entry>, i: nat, j: nat): set<string> {
    set k, l, w: string | 0 <= k < |es| && 0 <= l < |cut(es[k])| && (k < i || (k == i && l < j))
      && w in Value(cut(es[k])[l]) :: w
  }

  function Value(w: Option<string>): set<string> { if w.Some? then {w.value} else {} }

  /** The same as a list: the words of a row, those of all rows. */
  function RowWords(ws: seq<Option<string>>): seq<string> {
    if ws == [] then []
    else RowWords(ws[..|ws| - 1]) + (if ws[|ws| - 1].Some? then [ws[|ws| - 1].value] else [])
  }

  function AllWords(cut: Entry -> seq<Option<string>>, es: seq<Entry>): seq<string> {
    if es == [] then [] else AllWords(cut, es[..|es| - 1]) + RowWords(cut(es[|es| - 1]))
  }

  lemma {:induction false} RowHas(ws: seq<Option<string>>, w: string)
    ensures w in RowWords(ws) <==> Some(w) in ws
    decreases |ws|
  {
    if ws != [] {
      RowHas(ws[..|ws| - 1], w);
      assert ws == ws[..|ws| - 1] + [ws[|ws| - 1]];
    }
  }

  lemma {:induction false} AllHave(cut: Entry -> seq<Option<string>>, es: seq<Entry>, w: string)
    ensures w in AllWords(cut, es) <==> exists e <- es :: Some(w) in cut(e)
    decreases |es|
  {
    if es != [] {
      AllHave(cut, es[..|es| - 1], w);
      RowHas(cut(es[|es| - 1]), w);
      assert es == es[..|es| - 1] + [es[|es| - 1]];
    }
  }

  lemma {:induction false} RowFront(ws: seq<Option<string>>, j: nat) returns (rest: seq<string>)
    requires j <= |ws|
    ensures RowWords(ws) == RowWords(ws[..j]) + rest
    decreases |ws|
  {
    rest := [];
    if j == |ws| {
      assert ws[..j] == ws && RowWords(ws) + [] == RowWords(ws);
    } else {
      var n := |ws| - 1;
      var more := RowFront(ws[..n], j);
      assert ws[..n][..j] == ws[..j];
      rest := more + (if ws[n].Some? then [ws[n].value] else []);
    }
  }

  lemma {:induction false} AllFront(cut: Entry -> seq<Option<string>>, es: seq<Entry>, i: nat)
    returns (rest: seq<string>)
    requires i <= |es|
    ensures AllWords(cut, es) == AllWords(cut, es[..i]) + rest
    decreases |es|
  {
    rest := [];
    if i == |es| {
      assert es[..i] == es && AllWords(cut, es) + [] == AllWords(cut, es);
    } else {
      var n := |es| - 1;
      var more := AllFront(cut, es[..n], i);
      assert es[..n][..i] == es[..i];
      rest := more + RowWords(cut(es[n]));
    }
  }

  /** The words up to item j of entry i, listed. */
  function UpTo(cut: Entry -> seq<Option<string>>, es: seq<Entry>, i: nat, j: nat): seq<string>
    requires i < |es| && j <= |cut(es[i])|
  {
    AllWords(cut, es[..i]) + RowWords(cut(es[i])[..j])
  }

  lemma UpToIsBefore(cut: Entry -> seq<Option<string>>, es: seq<Entry>, i: nat, j: nat, w: string)
    requires i < |es| && j <= |cut(es[i])|
    ensures w in UpTo(cut, es, i, j) <==> w in Before(cut, es, i, j)
  {
    AllHave(cut, es[..i], w);
    RowHas(cut(es[i])[..j], w);
    if w in AllWords(cut, es[..i]) {
      var e :| e in es[..i] && Some(w) in cut(e);
      var k :| 0 <= k < i && es[..i][k] == e;
      var l :| 0 <= l < |cut(e)| && cut(e)[l] == Some(w);
      assert w in Value(cut(es[k])[l]);
    }
    if Some(w) in cut(es[i])[..j] {
      var l :| 0 <= l < j && cut(es[i])[l] == Some(w);
      assert w in Value(cut(es[i])[l]);
    }
    if w in Before(cut, es, i, j) {
      var k, l :| 0 <= k < |es| && 0 <= l < |cut(es[k])| && (k < i || (k == i && l < j)) && w in Value(cut(es[k])[l]);
      if k < i {
        assert es[..i][k] == es[k] && cut(es[k])[l] == Some(w);
      } else {
        assert cut(es[i])[..j][l] == Some(w);
      }
    }
  }

  lemma UpToIsFront(cut: Entry -> seq<Option<string>>, es: seq<Entry>, i: nat, j: nat)
    requires i < |es| && j <= |cut(es[i])|
    ensures Dedup(UpTo(cut, es, i, j)) <= Dedup(AllWords(cut, es))
  {
    var late := AllFront(cut, es, i + 1);
    var row := RowFront(cut(es[i]), j);
    assert es[..i + 1][..i] == es[..i];
    var front := RowWords(cut(es[i])[..j]);
    Regrouped(AllWords(cut, es[..i]), front, row, late);
    DedupGrows(UpTo(cut, es, i, j), row + late);
  }

  lemma Regrouped<T>(a: seq<T>, b: seq<T>, c: seq<T>, d: seq<T>)
    ensures a + (b + c) + d == a + b + (c + d)
  {}

  lemma {:induction false} DistinctCount(xs: seq<string>, s: set<string>)
    requires forall i, j :: 0 <= i < j < |xs| ==> xs[i] != xs[j]
    requires forall x :: x in xs <==> x in s
    ensures |xs| == |s|
    decreases |xs|
  {
    if xs == [] {
      assert s == {};
    } else {
      var n := |xs| - 1;
      assert forall x :: x in xs[..n] <==> x in s - {xs[n]};
      DistinctCount(xs[..n], s - {xs[n]});
    }
  }

  /**
    For every place in the entries: the distinct words up to it are the first of the merged list, as
    many as there are; so the list is in the order of first appearance.
   */
  lemma MergedInOrder(cut: Entry -> seq<Option<string>>, es: seq<Entry>, i: nat, j: nat)
    requires i < |es| && j <= |cut(es[i])|
    ensures
      var all, b := Dedup(AllWords(cut, es)), Before(cut, es, i, j);
      |b| <= |all| && forall w :: w in all[..|b|] <==> w in b
  {
    var front := Dedup(UpTo(cut, es, i, j));
    forall w ensures w in front <==> w in Before(cut, es, i, j) { UpToIsBefore(cut, es, i, j, w); }
    DistinctCount(front, Before(cut, es, i, j));
    UpToIsFront(cut, es, i, j);
  }

  /** The printed form of each address of an entry, none for one that is neither of 4 nor of 16 bytes. */
  function ServerWords(show: IP -> string): Entry -> seq<Option<string>> {
    (e: Entry) => seq(|e.servers|, k requires 0 <= k < |e.servers| =>
      if |e.servers[k]| == 4 || |e.servers[k]| == 16 then Some(show(e.servers[k])) else None)
  }

  /** Each domain of an entry trimmed, none for one that has nothing but white space. */
  function DomainWords(): Entry -> seq<Option<string>> {
    (e: Entry) => seq(|e.domains|, k requires 0 <= k < |e.domains| =>
      if Trim(e.domains[k]) == "" then None else Some(Trim(e.domains[k])))
  }

  lemma {:induction false} TextsAreWords(show: IP -> string, ips: seq<IP>, ws: seq<Option<string>>)
    requires |ws| == |ips|
    requires forall k :: 0 <= k < |ips| ==>
      ws[k] == if |ips[k]| == 4 || |ips[k]| == 16 then Some(show(ips[k])) else None
    ensures Texts(show, ips) == RowWords(ws)
    decreases |ips|
  {
    if ips != [] { TextsAreWords(show, ips[..|ips| - 1], ws[..|ws| - 1]); }
  }

  lemma {:induction false} CleanedAreWords(ds: seq<string>, ws: seq<Option<string>>)
    requires |ws| == |ds|
    requires forall k :: 0 <= k < |ds| ==> ws[k] == if Trim(ds[k]) == "" then None else Some(Trim(ds[k]))
    ensures Cleaned(ds) == RowWords(ws)
    decreases |ds|
  {
    if ds != [] { CleanedAreWords(ds[..|ds| - 1], ws[..|ws| - 1]); }
  }

  lemma {:induction false} AllTextsAreWords(show: IP -> string, es: seq<Entry>)
    ensures AllTexts(show, es) == AllWords(ServerWords(show), es)
    decreases |es|
  {
    if es != [] {
      var e := es[|es| - 1];
      AllTextsAreWords(show, es[..|es| - 1]);
      TextsAreWords(show, e.servers, ServerWords(show)(e));
    }
  }

  lemma {:induction false} AllDomainsAreWords(es: seq<Entry>)
    ensures AllDomains(es) == AllWords(DomainWords(), es)
    decreases |es|
  {
    if es != [] {
      var e := es[|es| - 1];
      AllDomainsAreWords(es[..|es| - 1]);
      CleanedAreWords(e.domains, DomainWords()(e));
    }
  }

  /**
    The servers are the first three distinct valid ones, in the order of the entries: as many of
    them as stand at or before any place are the first of the file, up to three.
   */
  lemma FirstThreeServers(show: IP -> string, m: map<string, Entry>, i: nat, j: nat)
    requires i < |Ordered(m)| && j <= |Ordered(m)[i].servers|
    ensures
      var ss, b := Servers(show, m), Before(ServerWords(show), Ordered(m), i, j);
      && |ss| <= 3
      && (if |b| <= 3 then |b| <= |ss| && forall w :: w in ss[..|b|] <==> w in b
          else |ss| == 3 && forall w <- ss :: w in b)
  {
    var es := Ordered(m);
    AllTextsAreWords(show, es);
    MergedInOrder(ServerWords(show), es, i, j);
    var all, b := Dedup(AllTexts(show, es)), |Before(ServerWords(show), es, i, j)|;
    assert forall n | 0 <= n <= |Servers(show, m)| :: Servers(show, m)[..n] == all[..n];
    if b > 3 { assert all[..3] == all[..b][..3]; }
  }

  /** Without entries there are none. */
  lemma NoEntries(show: IP -> string)
    ensures Servers(show, map[]) == [] && Domains(map[]) == []
  {
    var m: map<string, Entry> := map[];
    EnumerateAll(m.Values);
    assert |multiset(Enumerate(m.Values))| == 0;
    assert Ordered(m) == [];
  }

  /** The search domains come from a list that holds the distinct trimmed domains in the order of the entries. */
  lemma DomainsInOrder(m: map<string, Entry>, i: nat, j: nat, p: seq<string>)
    requires i < |Ordered(m)| && j <= |Ordered(m)[i].domains|
    ensures
      var all, b := Dedup(AllDomains(Ordered(m))), Before(DomainWords(), Ordered(m), i, j);
      && |b| <= |all| && (forall w :: w in all[..|b|] <==> w in b)
      && Domains(m) <= all && (p <= all ==> (p <= Domains(m) <==> |p| <= 6 && (p != [] ==> Utf8Len(Join(p)) < 256)))
  {
    var es := Ordered(m);
    AllDomainsAreWords(es);
    MergedInOrder(DomainWords(), es, i, j);
    if p <= Dedup(AllDomains(es)) {
      FitIsLongest(Dedup(AllDomains(es)), p);
      CostIsLine(p);
    }
  }

  lemma {:induction false} Utf8Joined(a: string, b: string)
    ensures Utf8Len(a + b) == Utf8Len(a) + Utf8Len(b)
    decreases |b|
  {
    if b == "" {
      assert a + b == a;
    } else {
      assert (a + b)[..|a + b| - 1] == a + b[..|b| - 1];
      Utf8Joined(a, b[..|b| - 1]);
    }
  }

  lemma {:induction false} JoinMore(ds: seq<string>, d: string)
    requires ds != []
    ensures Join(ds + [d]) == Join(ds) + " " + d
    decreases |ds|
  {
    assert (ds + [d])[1..] == ds[1..] + [d];
    if |ds| == 1 {
      assert Join([d]) == d;
    } else {
      JoinMore(ds[1..], d);
    }
  }

  /** The cost of domains is the length of the text they are joined to, and one more byte. */
  lemma {:induction false} CostIsLine(ds: seq<string>)
    ensures Cost(ds) == if ds == [] then 0 else Utf8Len(Join(ds)) + 1
    decreases |ds|
  {
    if |ds| > 1 {
      var n := |ds| - 1;
      CostIsLine(ds[..n]);
      JoinMore(ds[..n], ds[n]);
      assert ds[..n] + [ds[n]] == ds;
      Utf8Joined(Join(ds[..n]) + " ", ds[n]);
      Utf8Joined(Join(ds[..n]), " ");
    }
  }

  /** A code point in UTF-8. */
  function Utf8(n: nat): seq<nat> {
    if n < 0x80 then [n]
    else if n < 0x800 then [0xc0 + n / 0x40, 0x80 + n % 0x40]
    else if n < 0x10000 then [0xe0 + n / 0x1000, 0x80 + n / 0x40 % 0x40, 0x80 + n % 0x40]
    else [0xf0 + n / 0x40000, 0x80 + n / 0x1000 % 0x40, 0x80 + n / 0x40 % 0x40, 0x80 + n % 0x40]
  }

  function Utf8Of(s: string): seq<nat> { if s == "" then [] else Utf8Of(s[..|s| - 1]) + Utf8(s[|s| - 1] as int) }

  /** Lengths are counted in bytes. */
  lemma {:induction false} Utf8LenIsBytes(s: string)
    ensures Utf8Len(s) == |Utf8Of(s)|
    decreases |s|
  {
    if s != "" { Utf8LenIsBytes(s[..|s| - 1]); }
  }
}
