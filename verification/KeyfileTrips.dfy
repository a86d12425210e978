/** What a profile is after a trip through the disk, and which profiles such a trip leaves alone. */
module KeyfileTrips {
  import opened Common
  import opened Sorting
  import opened Text
  import opened Keyfile

  // ---- one entry ---------------------------------------------------------------------------------------

  predicate OkGroup(g: string, kv: map<string, Variant>) {
    '\n' !in g && g !in ALIASES && (g == "" ==> kv == map[])
  }

  predicate OkKey(k: string) {
    IsTrimmed(k) && '\n' !in k && '=' !in k && (k != "" ==> k[0] != '#')
  }

  /** v prints to one line under k that is not taken for a heading. */
  predicate OneLine(c: Codec, k: string, v: Variant) {
    '\n' !in KeyfileValue(c, v) && !LooksHeading(k, Trim(KeyfileValue(c, v)))
  }

  predicate LooksHeading(k: string, val: string) { k != "" && k[0] == '[' && val != "" && val[|val| - 1] == ']' }

  predicate OkEntry(c: Codec, k: string, v: Variant) { OkKey(k) && OneLine(c, k, v) }

  /** Every entry prints to a line of its own. */
  predicate Lined(c: Codec, s: Settings) {
    forall g <- s :: OkGroup(g, s[g]) && forall k <- s[g] :: OkEntry(c, k, s[g][k])
  }

  /** What the printed value of an entry means when it is read, and whether it is in the old form. */
  function Again(c: Codec, g: string, k: string, v: Variant): (Variant, bool) {
    Meaning(c, g, k, Trim(KeyfileValue(c, v)))
  }

  lemma LineTrims(k: string, val: string)
    requires OkKey(k)
    ensures Trim(k + "=" + val) == k + "=" + TrimRight(val) && Trim(TrimRight(val)) == Trim(val)
  {
    var line := k + "=" + val;
    assert line[0] == (if k == "" then '=' else k[0]) && TrimLeft(line) == line;
    TrimRightAfter(k + "=", val);
    TrimLeftThenRight(val);
  }

  /** The trimmed line of an entry is taken apart into its key and its value. */
  lemma LineIsEntry(k: string, val: string)
    requires OkKey(k) && !LooksHeading(k, Trim(val))
    ensures
      var line := Trim(k + "=" + val);
      && line != "" && line[0] != '#' && !IsHeading(line) && IndexOf(line, '=') == |k|
      && Trim(line[..|k|]) == k && Trim(line[|k| + 1..]) == Trim(val)
  {
    LineTrims(k, val);
    var w := TrimRight(val);
    var line := k + "=" + w;
    IndexAfter(k, '=', w);
    assert line[0] == if k == "" then '=' else k[0];
    assert line[|line| - 1] == if w == "" then '=' else w[|w| - 1];
    assert line[..|k|] == k && line[|k| + 1..] == w;
    TrimmedStays(k);
    if w != "" { TrimLast(val); }
  }

  /** The last character that trimming on the right keeps is kept by trimming. */
  lemma TrimLast(val: string)
    requires TrimRight(val) != ""
    ensures Trim(val) != "" && Trim(val)[|Trim(val)| - 1] == TrimRight(val)[|TrimRight(val)| - 1]
  {
    var w := TrimRight(val);
    TrimLeftThenRight(val);
    TrimLeftLast(w);
    TrimmedRight(TrimLeft(w));
  }

  lemma {:induction false} TrimLeftLast(s: string)
    requires s != "" && !IsSpace(s[|s| - 1])
    ensures var t := TrimLeft(s); t != "" && t[|t| - 1] == s[|s| - 1]
    decreases |s|
  {
    if IsSpace(s[0]) { TrimLeftLast(s[1..]); }
  }

  lemma TrimmedRight(s: string)
    requires s != "" && !IsSpace(s[|s| - 1])
    ensures TrimRight(s) == s
  {}

  lemma EntryReads(c: Codec, st: Reading, k: string, v: Variant)
    requires st.group != "" && OkEntry(c, k, v)
    ensures
      var a := Again(c, st.group, k, v);
      ReadTrimmed(c, st, Trim(k + "=" + KeyfileValue(c, v))) == AddEntry(st, k, a.0, a.1)
  {
    LineIsEntry(k, KeyfileValue(c, v));
  }

  // ---- one group -----------------------------------------------------------------------------------------

  /** The reading after the printed entries ks of the group it is in. */
  function AddAll(c: Codec, st: Reading, kv: map<string, Variant>, ks: seq<string>): Reading
    requires forall k <- ks :: k in kv
    decreases |ks|
  {
    if ks == [] then st
    else
      var a := Again(c, st.group, ks[0], kv[ks[0]]);
      AddAll(c, AddEntry(st, ks[0], a.0, a.1), kv, ks[1..])
  }

  function AgainAll(c: Codec, g: string, kv: map<string, Variant>): map<string, Variant> {
    map k | k in kv :: Again(c, g, k, kv[k]).0
  }

  predicate AnyOldIn(c: Codec, g: string, kv: map<string, Variant>) { exists k <- kv :: Again(c, g, k, kv[k]).1 }

  /** AddAll, key by key: the entries ks are as they read again, the others as before. */
  ghost predicate AddedOver(c: Codec, st: Reading, kv: map<string, Variant>, ks: seq<string>, all: Reading)
    requires st.group in st.out && forall k <- ks :: k in kv
  {
    && all.group == st.group && st.group in all.out && all.out == st.out[st.group := all.out[st.group]]
    && (forall k :: k in all.out[st.group] <==> k in ks || k in st.out[st.group])
    && (forall k <- all.out[st.group] ::
          all.out[st.group][k] == if k in ks then Again(c, st.group, k, kv[k]).0 else st.out[st.group][k])
    && (all.legacy <==> st.legacy || exists k <- ks :: Again(c, st.group, k, kv[k]).1)
  }

  lemma AddedFirst(c: Codec, st: Reading, kv: map<string, Variant>, ks: seq<string>, all: Reading)
    requires st.group in st.out && ks != [] && forall k <- ks :: k in kv
    requires
      var a := Again(c, st.group, ks[0], kv[ks[0]]);
      AddedOver(c, AddEntry(st, ks[0], a.0, a.1), kv, ks[1..], all)
    ensures AddedOver(c, st, kv, ks, all)
  {
    assert forall k :: k in ks <==> k == ks[0] || k in ks[1..];
  }

  lemma {:induction false} AddsAll(c: Codec, st: Reading, kv: map<string, Variant>, ks: seq<string>)
    requires st.group in st.out && forall k <- ks :: k in kv
    ensures AddedOver(c, st, kv, ks, AddAll(c, st, kv, ks))
    decreases |ks|
  {
    if ks != [] {
      var a := Again(c, st.group, ks[0], kv[ks[0]]);
      AddsAll(c, AddEntry(st, ks[0], a.0, a.1), kv, ks[1..]);
      AddedFirst(c, st, kv, ks, AddAll(c, st, kv, ks));
    }
  }

  function InGroup(st: Reading, g: string, kv: map<string, Variant>, wasOld: bool): Reading {
    Reading(g, st.out[g := kv], st.legacy || wasOld)
  }

  lemma AddsGroup(c: Codec, st: Reading, g: string, kv: map<string, Variant>, ks: seq<string>)
    requires forall k :: k in ks <==> k in kv
    ensures AddAll(c, InGroup(st, g, map[], false), kv, ks) == InGroup(st, g, AgainAll(c, g, kv), AnyOldIn(c, g, kv))
  {
    var start := InGroup(st, g, map[], false);
    AddsAll(c, start, kv, ks);
    var all := AddAll(c, start, kv, ks);
    SameMap(all.out[g], AgainAll(c, g, kv));
    OldInAll(c, g, kv, ks);
    InGroupIs(st, g, AgainAll(c, g, kv), AnyOldIn(c, g, kv), all);
  }

  lemma InGroupIs(st: Reading, g: string, kv: map<string, Variant>, wasOld: bool, all: Reading)
    requires all.group == g && g in all.out && all.out[g] == kv && (all.legacy <==> st.legacy || wasOld)
    requires all.out == st.out[g := map[]][g := all.out[g]]
    ensures all == InGroup(st, g, kv, wasOld)
  {
    UpdateTwice(st.out, g, map[], kv);
  }

  lemma SameMap<K, V>(a: map<K, V>, b: map<K, V>)
    requires (forall k :: k in a <==> k in b) && forall k <- a :: a[k] == b[k]
    ensures a == b
  {}

  lemma UpdateTwice<K, V>(m: map<K, V>, k: K, u: V, v: V)
    ensures m[k := u][k := v] == m[k := v]
  {}

  lemma OldInAll(c: Codec, g: string, kv: map<string, Variant>, ks: seq<string>)
    requires forall k :: k in ks <==> k in kv
    ensures AnyOldIn(c, g, kv) <==> exists k <- ks :: Again(c, g, k, kv[k]).1
  {}

  lemma FirstRead(c: Codec, st: Reading, line: string, rest: string)
    requires '\n' !in line
    ensures ReadLines(c, st, Lines(line + "\n" + rest)) == ReadLines(c, ReadTrimmed(c, st, Trim(line)), Lines(rest))
  {
    FirstLine(line, rest);
    assert ([line] + Lines(rest))[1..] == Lines(rest);
  }

  lemma {:induction false} EntriesRead(c: Codec, st: Reading, kv: map<string, Variant>, ks: seq<string>, rest: string)
    requires st.group != "" && forall k <- ks :: k in kv && OkEntry(c, k, kv[k])
    ensures ReadLines(c, st, Lines(EntriesTo(c, kv, ks, rest))) == ReadLines(c, AddAll(c, st, kv, ks), Lines(rest))
    decreases |ks|
  {
    if ks != [] {
      var k, v := ks[0], kv[ks[0]];
      var a := Again(c, st.group, k, v);
      EntryReads(c, st, k, v);
      FirstRead(c, st, k + "=" + KeyfileValue(c, v), EntriesTo(c, kv, ks[1..], rest));
      EntriesRead(c, AddEntry(st, k, a.0, a.1), kv, ks[1..], rest);
    }
  }

  lemma HeadingReads(c: Codec, st: Reading, g: string)
    requires g !in ALIASES
    ensures ReadTrimmed(c, st, Trim("[" + KeyfileGroup(g) + "]")) == InGroup(st, g, map[], false)
  {
    var line := "[" + KeyfileGroup(g) + "]";
    TrimmedStays(line);
    GroupNames(g);
    assert line[1..|line| - 1] == KeyfileGroup(g);
  }

  lemma BlankRead(c: Codec, st: Reading, rest: string)
    ensures ReadLines(c, st, Lines("\n" + rest)) == ReadLines(c, st, Lines(rest))
  {
    FirstRead(c, st, "", rest);
    assert "" + "\n" + rest == "\n" + rest;
    TrimmedStays("");
  }

  lemma BodyReads(c: Codec, st: Reading, g: string, kv: map<string, Variant>, rest: string)
    requires OkGroup(g, kv) && forall k <- kv :: OkEntry(c, k, kv[k])
    ensures
      ReadLines(c, InGroup(st, g, map[], false), Lines(EntriesTo(c, kv, SortedKeys(kv.Keys), "\n" + rest)))
      == ReadLines(c, InGroup(st, g, AgainAll(c, g, kv), AnyOldIn(c, g, kv)), Lines(rest))
  {
    var ks, start := SortedKeys(kv.Keys), InGroup(st, g, map[], false);
    AddsGroup(c, st, g, kv, ks);
    if g == "" {
      assert ks == [];
    } else {
      EntriesRead(c, start, kv, ks, "\n" + rest);
    }
    BlankRead(c, AddAll(c, start, kv, ks), rest);
  }

  lemma HeadingLine(g: string)
    requires '\n' !in g
    ensures '\n' !in "[" + KeyfileGroup(g) + "]"
  {}

  lemma GroupReads(c: Codec, st: Reading, g: string, kv: map<string, Variant>, rest: string)
    requires OkGroup(g, kv) && forall k <- kv :: OkEntry(c, k, kv[k])
    ensures
      ReadLines(c, st, Lines(GroupTo(c, g, kv, rest)))
      == ReadLines(c, InGroup(st, g, AgainAll(c, g, kv), AnyOldIn(c, g, kv)), Lines(rest))
  {
    HeadingReads(c, st, g);
    HeadingLine(g);
    FirstRead(c, st, "[" + KeyfileGroup(g) + "]", EntriesTo(c, kv, SortedKeys(kv.Keys), "\n" + rest));
    BodyReads(c, st, g, kv, rest);
  }

  // ---- whole settings --------------------------------------------------------------------------------------

  function Reread(c: Codec, s: Settings): Settings { map g | g in s :: AgainAll(c, g, s[g]) }

  predicate AnyOld(c: Codec, s: Settings) { exists g <- s :: AnyOldIn(c, g, s[g]) }

  /** The reading r after the groups gs of s were read from st. */
  ghost predicate GroupsOver(c: Codec, st: Reading, s: Settings, gs: seq<string>, r: Reading)
    requires forall g <- gs :: g in s
  {
    && (forall g :: g in r.out <==> g in gs || g in st.out)
    && (forall g <- r.out :: r.out[g] == if g in gs then AgainAll(c, g, s[g]) else st.out[g])
    && (r.legacy <==> st.legacy || exists g <- gs :: AnyOldIn(c, g, s[g]))
  }

  lemma GroupsFirst(c: Codec, st: Reading, s: Settings, gs: seq<string>, r: Reading)
    requires gs != [] && forall g <- gs :: g in s
    requires
      var g := gs[0];
      GroupsOver(c, InGroup(st, g, AgainAll(c, g, s[g]), AnyOldIn(c, g, s[g])), s, gs[1..], r)
    ensures GroupsOver(c, st, s, gs, r)
  {
    assert forall x :: x in gs <==> x == gs[0] || x in gs[1..];
  }

  lemma {:induction false} GroupsRead(c: Codec, st: Reading, s: Settings, gs: seq<string>)
    requires Lined(c, s) && forall g <- gs :: g in s
    ensures GroupsOver(c, st, s, gs, ReadLines(c, st, Lines(GroupsTo(c, s, gs))))
    decreases |gs|
  {
    if gs == [] {
      TrimmedStays("");
      assert Lines("") == [""];
      assert [""][1..] == [];
    } else {
      var g := gs[0];
      GroupReads(c, st, g, s[g], GroupsTo(c, s, gs[1..]));
      GroupsRead(c, InGroup(st, g, AgainAll(c, g, s[g]), AnyOldIn(c, g, s[g])), s, gs[1..]);
      GroupsFirst(c, st, s, gs, ReadLines(c, st, Lines(GroupsTo(c, s, gs))));
    }
  }

  /** Reading what was written gives, entry by entry, what its printed value means. */
  lemma ReadsBack(c: Codec, s: Settings)
    requires Lined(c, s)
    ensures Read(c, Print(c, s)).out == Reread(c, s) && (Read(c, Print(c, s)).legacy <==> AnyOld(c, s))
  {
    var gs, r := SortedKeys(s.Keys), Read(c, Print(c, s));
    GroupsRead(c, START, s, gs);
    SameMap(r.out, Reread(c, s));
    OldInGroups(c, s, gs);
  }

  lemma OldInGroups(c: Codec, s: Settings, gs: seq<string>)
    requires forall g :: g in gs <==> g in s
    ensures AnyOld(c, s) <==> exists g <- gs :: AnyOldIn(c, g, s[g])
  {}

  /** The entry means the same when its printed value is read. */
  predicate Survives(c: Codec, g: string, k: string, v: Variant) { Again(c, g, k, v).0 == v }

  predicate AllSurvive(c: Codec, s: Settings) { forall g <- s, k <- s[g] :: Survives(c, g, k, s[g][k]) }

  /** Text is never read as a list, and a list is never printed in the old form. */
  lemma SurvivorIsNotOld(c: Codec, g: string, k: string, v: Variant)
    requires Survives(c, g, k, v)
    ensures !Again(c, g, k, v).1
  {
    if !v.Bytes? && !v.Str? {
      TrimFirst(KeyfileValue(c, v));
    }
  }

  lemma GroupSurvives(c: Codec, g: string, kv: map<string, Variant>)
    ensures AgainAll(c, g, kv) == kv <==> forall k <- kv :: Survives(c, g, k, kv[k])
  {
    if AgainAll(c, g, kv) == kv {
      forall k | k in kv ensures Survives(c, g, k, kv[k]) {
        assert AgainAll(c, g, kv)[k] == Again(c, g, k, kv[k]).0;
      }
    }
    if forall k <- kv :: Survives(c, g, k, kv[k]) {
      SameMap(AgainAll(c, g, kv), kv);
    }
  }

  lemma RereadSame(c: Codec, s: Settings)
    ensures Reread(c, s) == s <==> forall g <- s :: AgainAll(c, g, s[g]) == s[g]
  {
    if Reread(c, s) == s {
      forall g | g in s ensures AgainAll(c, g, s[g]) == s[g] {
        assert Reread(c, s)[g] == AgainAll(c, g, s[g]);
      }
    }
    if forall g <- s :: AgainAll(c, g, s[g]) == s[g] {
      SameMap(Reread(c, s), s);
    }
  }

  /** Settings come back unchanged exactly if each entry does, and then nothing is in the old form. */
  lemma SurvivesExactly(c: Codec, s: Settings)
    requires Lined(c, s)
    ensures Read(c, Print(c, s)).out == s <==> AllSurvive(c, s)
    ensures AllSurvive(c, s) ==> !Read(c, Print(c, s)).legacy
  {
    ReadsBack(c, s);
    RereadSame(c, s);
    forall g | g in s ensures AgainAll(c, g, s[g]) == s[g] <==> forall k <- s[g] :: Survives(c, g, k, s[g][k]) {
      GroupSurvives(c, g, s[g]);
    }
    forall g, k | g in s && k in s[g] && Survives(c, g, k, s[g][k]) ensures !Again(c, g, k, s[g][k]).1 {
      SurvivorIsNotOld(c, g, k, s[g][k]);
    }
  }

  // ---- settings as clients send them -----------------------------------------------------------------------

  /** Text reads as itself, other values are covered by the codec's own round trip. */
  predicate Faithful(c: Codec, k: string, v: Variant) {
    match v
    case Bytes(text) => KeyfileVariant(c, text) == Str(text) && LegacyValue(c, k, text).None?
    case Str(text) => KeyfileVariant(c, text) == Str(text) && LegacyValue(c, k, text).None?
    case _ => c.sig(v) != "" && ' ' !in c.sig(v) && c.parse(c.sig(v), c.show(v)) == Some(v)
  }

  predicate Kept(c: Codec, g: string, k: string, v: Variant) {
    OkEntry(c, k, v) && IsTrimmed(KeyfileValue(c, v)) && (IsSsid(g, k) || Faithful(c, k, v))
  }

  predicate OkSettings(c: Codec, s: Settings) {
    forall g <- s :: OkGroup(g, s[g]) && forall k <- s[g] :: Kept(c, g, k, s[g][k])
  }

  /** The ssid always comes back as bytes, other bytes as a string. */
  function Norm(c: Codec, g: string, k: string, v: Variant): Variant {
    if IsSsid(g, k) then Bytes(KeyfileValue(c, v)) else if v.Bytes? then Str(v.text) else v
  }

  function NormGroup(c: Codec, g: string, kv: map<string, Variant>): map<string, Variant> {
    map k | k in kv :: Norm(c, g, k, kv[k])
  }

  function Normalized(c: Codec, s: Settings): Settings { map g | g in s :: NormGroup(c, g, s[g]) }

  lemma KeptReads(c: Codec, g: string, k: string, v: Variant)
    requires Kept(c, g, k, v)
    ensures Again(c, g, k, v) == (Norm(c, g, k, v), false)
  {
    TrimmedStays(KeyfileValue(c, v));
    if !IsSsid(g, k) && !v.Bytes? && !v.Str? {
      TypedReads(c, c.sig(v), c.show(v));
    }
  }

  lemma KeptGroup(c: Codec, g: string, kv: map<string, Variant>)
    requires forall k <- kv :: Kept(c, g, k, kv[k])
    ensures AgainAll(c, g, kv) == NormGroup(c, g, kv) && !AnyOldIn(c, g, kv)
  {
    forall k | k in kv ensures Again(c, g, k, kv[k]) == (Norm(c, g, k, kv[k]), false) {
      KeptReads(c, g, k, kv[k]);
    }
    SameMap(AgainAll(c, g, kv), NormGroup(c, g, kv));
  }

  /** Reading what was written gives the same settings, with nothing in the old form. */
  lemma RoundTrip(c: Codec, s: Settings)
    requires OkSettings(c, s)
    ensures Read(c, Print(c, s)).out == Normalized(c, s) && !Read(c, Print(c, s)).legacy
  {
    ReadsBack(c, s);
    forall g | g in s ensures AgainAll(c, g, s[g]) == NormGroup(c, g, s[g]) && !AnyOldIn(c, g, s[g]) {
      KeptGroup(c, g, s[g]);
    }
    SameMap(Reread(c, s), Normalized(c, s));
  }

  // ---- settings as files hold them --------------------------------------------------------------------------

  /** Whatever the file, its groups and keys can be written. */
  ghost predicate Shaped(st: Reading) {
    && st.group !in ALIASES && '\n' !in st.group
    && forall g <- st.out :: OkGroup(g, st.out[g]) && forall k <- st.out[g] :: OkKey(k)
  }

  lemma DbusGroupNoAlias(k: string)
    ensures DbusGroup(k) !in ALIASES && ('\n' !in k ==> '\n' !in DbusGroup(k))
  {
    assert |WIFI| == 15 && |"802-11-wireless-security"| == 24 && |"802-3-ethernet"| == 14;
    assert |"wifi"| == 4 && |"wifi-security"| == 13 && |"ethernet"| == 8;
  }

  lemma KeyIsOk(line: string, eq: nat)
    requires line != "" && IsTrimmed(line) && line[0] != '#' && '\n' !in line && IndexOf(line, '=') == eq
    ensures var key := Trim(line[..eq]); OkKey(key) && (key != "" ==> key[0] == line[0])
  {
    TrimKeeps(line[..eq], '=');
    TrimKeeps(line[..eq], '\n');
    if eq > 0 { TrimFirst(line[..eq]); }
  }

  lemma LineShapes(c: Codec, st: Reading, line: string)
    requires Shaped(st) && IsTrimmed(line) && '\n' !in line
    ensures Shaped(ReadTrimmed(c, st, line))
  {
    if line != "" && line[0] != '#' {
      var eq := IndexOf(line, '=');
      if IsHeading(line) {
        var k := line[1..|line| - 1];
        DbusGroupNoAlias(k);
        HeadingShapes(st, DbusGroup(k));
      } else if eq >= 0 && st.group != "" {
        KeyIsOk(line, eq);
        AddShapes(c, st, Trim(line[..eq]), Meaning(c, st.group, Trim(line[..eq]), Trim(line[eq + 1..])));
      }
    }
  }

  lemma HeadingShapes(st: Reading, g: string)
    requires Shaped(st) && g !in ALIASES && '\n' !in g
    ensures Shaped(st.(group := g, out := st.out[g := map[]]))
  {}

  lemma AddShapes(c: Codec, st: Reading, key: string, m: (Variant, bool))
    requires Shaped(st) && st.group != "" && OkKey(key)
    ensures Shaped(AddEntry(st, key, m.0, m.1))
  {}

  lemma {:induction false} LinesShape(c: Codec, st: Reading, lines: seq<string>)
    requires Shaped(st) && forall l <- lines :: '\n' !in l
    ensures Shaped(ReadLines(c, st, lines))
    decreases |lines|
  {
    if lines != [] {
      TrimKeeps(lines[0], '\n');
      LineShapes(c, st, Trim(lines[0]));
      LinesShape(c, ReadTrimmed(c, st, Trim(lines[0])), lines[1..]);
    }
  }

  ghost predicate AllOneLine(c: Codec, s: Settings) { forall g <- s, k <- s[g] :: OneLine(c, k, s[g][k]) }

  /**
    Whatever a file holds, in the old form or not: if each entry read from it prints to one line,
    then writing and reading it again gives the same settings exactly if each entry survives.
   */
  lemma RewriteExactly(c: Codec, text: string)
    requires AllOneLine(c, Read(c, text).out)
    ensures
      var s := Read(c, text).out;
      && (Read(c, Print(c, s)).out == s <==> AllSurvive(c, s))
      && (AllSurvive(c, s) ==> !Read(c, Print(c, s)).legacy)
  {
    LinesShape(c, START, Lines(text));
    SurvivesExactly(c, Read(c, text).out);
  }

  // ---- which lines survive ----------------------------------------------------------------------------------

  predicate IsText(v: Variant) { v.Str? || v.Bytes? }

  predicate Printable(c: Codec, v: Variant) {
    && c.sig(v) != "" && ' ' !in c.sig(v) && '\n' !in c.sig(v)
    && c.show(v) != "" && IsTrimmed(c.show(v)) && '\n' !in c.show(v)
    && c.parse(c.sig(v), c.show(v)) == Some(v)
  }

  /** The codec's printer and parser are inverse on every value, other than text, that reading can yield. */
  ghost predicate Inverse(c: Codec) {
    forall g, k, val :: !IsText(Meaning(c, g, k, val).0) ==> Printable(c, Meaning(c, g, k, val).0)
  }

  /** A string that is one line and, written bare under key k, reads as itself. */
  predicate PlainText(c: Codec, k: string, t: string) {
    && IsTrimmed(t) && '\n' !in t && !LooksHeading(k, t)
    && KeyfileVariant(c, t) == Str(t) && LegacyValue(c, k, t).None?
  }

  /**
    An entry that spells out text spells out plain text; one that spells out another value has no key
    with a bracket.
   */
  predicate Settled(c: Codec, g: string, k: string, val: string) {
    "@" <= val && !IsSsid(g, k) ==>
      match KeyfileVariant(c, val)
      case Str(t) => PlainText(c, k, t)
      case Bytes(_) => false
      case _ => k == "" || k[0] != '['
  }

  ghost predicate StableEntry(c: Codec, g: string, k: string, v: Variant) { OneLine(c, k, v) && Survives(c, g, k, v) }

  /** A value other than text that can be printed survives. */
  lemma PrintableSurvives(c: Codec, g: string, k: string, v: Variant)
    requires !IsText(v) && Printable(c, v) && !IsSsid(g, k) && (k == "" || k[0] != '[')
    ensures StableEntry(c, g, k, v)
  {
    var head := "@" + c.sig(v) + " ";
    var val := head + c.show(v);
    assert val[0] == '@' && val[|val| - 1] == c.show(v)[|c.show(v)| - 1];
    TrimmedStays(val);
    TypedReads(c, c.sig(v), c.show(v));
  }

  lemma MeaningIsStable(c: Codec, g: string, k: string, val: string)
    requires Inverse(c) && IsTrimmed(val) && '\n' !in val && !LooksHeading(k, val) && Settled(c, g, k, val)
    ensures StableEntry(c, g, k, Meaning(c, g, k, val).0)
  {
    var v := Meaning(c, g, k, val).0;
    if IsText(v) {
      TrimmedStays(v.text);
    } else {
      PrintableSurvives(c, g, k, v);
    }
  }

  /** Every line that is an entry is settled in the group it stands in. */
  predicate AllSettled(c: Codec, st: Reading, lines: seq<string>)
    decreases |lines|
  {
    lines != [] ==>
      var line := Trim(lines[0]);
      SettledLine(c, st.group, line) && AllSettled(c, ReadTrimmed(c, st, line), lines[1..])
  }

  predicate SettledLine(c: Codec, g: string, line: string) {
    var eq := IndexOf(line, '=');
    g != "" && eq >= 0 && line[0] != '#' && !IsHeading(line) ==> Settled(c, g, Trim(line[..eq]), Trim(line[eq + 1..]))
  }

  ghost predicate Stable(c: Codec, st: Reading) {
    forall g <- st.out, k <- st.out[g] :: StableEntry(c, g, k, st.out[g][k])
  }

  lemma LineIsStable(c: Codec, st: Reading, line: string)
    requires Inverse(c) && Stable(c, st) && IsTrimmed(line) && '\n' !in line && SettledLine(c, st.group, line)
    ensures Stable(c, ReadTrimmed(c, st, line))
  {
    var eq := IndexOf(line, '=');
    if eq >= 0 && line[0] != '#' && !IsHeading(line) && st.group != "" {
      var key, val := Trim(line[..eq]), Trim(line[eq + 1..]);
      KeyIsOk(line, eq);
      TrimKeeps(line[eq + 1..], '\n');
      NoHeading(line, eq);
      MeaningIsStable(c, st.group, key, val);
      AddIsStable(c, st, key, Meaning(c, st.group, key, val));
    }
  }

  lemma NoHeading(line: string, eq: nat)
    requires line != "" && IsTrimmed(line) && !IsHeading(line) && IndexOf(line, '=') == eq
    ensures !LooksHeading(Trim(line[..eq]), Trim(line[eq + 1..]))
  {
    if eq > 0 { TrimFirst(line[..eq]); }
    var rest := line[eq + 1..];
    if rest != "" {
      assert rest[|rest| - 1] == line[|line| - 1];
      TrimLeftLast(rest);
      TrimmedRight(TrimLeft(rest));
    }
  }

  lemma AddIsStable(c: Codec, st: Reading, key: string, m: (Variant, bool))
    requires Stable(c, st) && StableEntry(c, st.group, key, m.0)
    ensures Stable(c, AddEntry(st, key, m.0, m.1))
  {}

  lemma {:induction false} LinesAreStable(c: Codec, st: Reading, lines: seq<string>)
    requires Inverse(c) && Stable(c, st) && AllSettled(c, st, lines) && forall l <- lines :: '\n' !in l
    ensures Stable(c, ReadLines(c, st, lines))
    decreases |lines|
  {
    if lines != [] {
      TrimKeeps(lines[0], '\n');
      LineIsStable(c, st, Trim(lines[0]));
      LinesAreStable(c, ReadTrimmed(c, st, Trim(lines[0])), lines[1..]);
    }
  }

  /** Writing what was read from a file of settled lines, in the old form or not, and reading that changes nothing. */
  lemma RewriteConverges(c: Codec, text: string)
    requires Inverse(c) && AllSettled(c, START, Lines(text))
    ensures
      var s := Read(c, text).out;
      Read(c, Print(c, s)).out == s && !Read(c, Print(c, s)).legacy
  {
    LinesAreStable(c, START, Lines(text));
    RewriteExactly(c, text);
  }

  // ---- files in the old form -------------------------------------------------------------------------------

  /** A file with one group and one entry. */
  function OneLineFile(group: string, key: string, val: string): string {
    "[" + group + "]" + "\n" + (key + "=" + val + "\n" + "")
  }

  /** It reads as that entry, under the D-Bus name of the group. */
  lemma OneLineFileReads(c: Codec, group: string, key: string, val: string)
    requires group != "" && '\n' !in group && OkKey(key) && '\n' !in val && IsTrimmed(val) && !LooksHeading(key, val)
    ensures
      var g := DbusGroup(group);
      var m := Meaning(c, g, key, val);
      Read(c, OneLineFile(group, key, val)) == Reading(g, map[g := map[key := m.0]], m.1)
  {
    var st := Reading(DbusGroup(group), map[DbusGroup(group) := map[]], false);
    HeadingFirst(c, group);
    FirstRead(c, START, "[" + group + "]", key + "=" + val + "\n" + "");
    EntryFirst(c, st, key, val);
    FirstRead(c, st, key + "=" + val, "");
    LastBlank(c, ReadTrimmed(c, st, Trim(key + "=" + val)));
    DbusGroupNotEmpty(group);
  }

  lemma DbusGroupNotEmpty(group: string)
    ensures DbusGroup(group) == "" ==> group == ""
  {
    assert |WIFI| == 15 && |"802-11-wireless-security"| == 24 && |"802-3-ethernet"| == 14;
  }

  lemma HeadingFirst(c: Codec, group: string)
    requires '\n' !in group
    ensures
      var g := DbusGroup(group);
      ReadTrimmed(c, START, Trim("[" + group + "]")) == Reading(g, map[g := map[]], false)
    ensures '\n' !in "[" + group + "]"
  {
    var heading := "[" + group + "]";
    TrimmedStays(heading);
    assert heading[1..|heading| - 1] == group;
  }

  lemma EntryFirst(c: Codec, st: Reading, key: string, val: string)
    requires OkKey(key) && '\n' !in val && IsTrimmed(val) && !LooksHeading(key, val)
    requires st.group != "" && st.out == map[st.group := map[]] && !st.legacy
    ensures
      var m := Meaning(c, st.group, key, val);
      ReadTrimmed(c, st, Trim(key + "=" + val)) == Reading(st.group, map[st.group := map[key := m.0]], m.1)
    ensures '\n' !in key + "=" + val
  {
    TrimmedStays(val);
    LineIsEntry(key, val);
    OneKey(st.group, key, Meaning(c, st.group, key, val).0);
  }

  lemma OneKey(g: string, key: string, v: Variant)
    ensures map[g := map[]][g := map[][key := v]] == map[g := map[key := v]]
  {
    assert map[][key := v] == map[key := v];
  }

  lemma LastBlank(c: Codec, st: Reading)
    ensures ReadLines(c, st, Lines("")) == st
  {
    TrimmedStays("");
    assert Lines("") == [""] && [""][1..] == [];
  }

  /** A file with a list of strings in the old form reads as that list, and is marked as old. */
  lemma OldStringsFile(c: Codec, group: string, key: string, ws: seq<string>, fs: seq<string>)
    requires group != "" && '\n' !in group && key in LIST_KEYS && Spells(fs, ws)
    requires forall w <- ws :: w != "" && NoSpace(w) && !Legacy.QuoteEdged(w)
    ensures
      var r := Read(c, OneLineFile(group, key, "[" + Join(fs) + "]"));
      r.legacy && r.out == map[DbusGroup(group) := map[key := Strings(ws)]]
  {
    LegacyStringsRead(c, key, ws, fs);
    OldListFile(c, group, key, Join(fs));
  }

  /** So does one with a list of maps, if their values parse. */
  lemma OldMapsFile(c: Codec, group: string, key: string, ms: seq<seq<Legacy.Pair>>)
    requires group != "" && '\n' !in group && key in MAP_KEYS && '\n' !in Legacy.PrintMaps(ms)
    requires (forall ps <- ms, p <- ps :: Legacy.OkPair(p)) && Legacy.MapsOf(c.guess, ms).Some?
    ensures
      var r := Read(c, OneLineFile(group, key, "[" + Legacy.PrintMaps(ms) + "]"));
      r.legacy && r.out == map[DbusGroup(group) := map[key := Maps(Legacy.MapsOf(c.guess, ms).value)]]
  {
    LegacyMapsRead(c, key, ms);
    OldListFile(c, group, key, Legacy.PrintMaps(ms));
  }

  lemma OldListFile(c: Codec, group: string, key: string, inner: string)
    requires group != "" && '\n' !in group && (key in LIST_KEYS || key in MAP_KEYS) && '\n' !in inner
    requires LegacyValue(c, key, "[" + inner + "]").Some?
    ensures
      var r, v := Read(c, OneLineFile(group, key, "[" + inner + "]")), LegacyValue(c, key, "[" + inner + "]");
      r.legacy && r.out == map[DbusGroup(group) := map[key := v.value]]
  {
    ListKeysAreOk(key);
    var val := "[" + inner + "]";
    assert val[0] == '[';
    OneLineFileReads(c, group, key, val);
  }

  lemma ListKeysAreOk(key: string)
    requires key in LIST_KEYS || key in MAP_KEYS
    ensures OkKey(key) && key[0] != '[' && key != "ssid"
  {
    assert |"ssid"| == 4;
  }

  // ---- typed text -------------------------------------------------------------------------------------------

  /** One group with one entry. */
  function OneEntry(v: Variant): Settings { map["a" := map["k" := v]] }

  lemma OneEntryIs(v: Variant, w: Variant)
    ensures OneEntry(v) == OneEntry(w) <==> v == w
  {
    assert OneEntry(v)["a"]["k"] == v && OneEntry(w)["a"]["k"] == w;
  }

  lemma ShortNames()
    ensures '\n' !in "a" && "a" !in ALIASES && "a" != "" && OkKey("k") && "k"[0] != '['
  {
    assert |"wifi"| == 4 && |"wifi-security"| == 13 && |"ethernet"| == 8 && |"a"| == 1;
  }

  lemma LinedIfEach(c: Codec, s: Settings)
    requires forall g <- s :: OkGroup(g, s[g]) && forall k <- s[g] :: OkKey(k) && OneLine(c, k, s[g][k])
    ensures Lined(c, s)
  {}

  lemma OneLined(c: Codec, v: Variant)
    requires '\n' !in KeyfileValue(c, v)
    ensures Lined(c, OneEntry(v))
  {
    ShortNames();
    LinedIfEach(c, OneEntry(v));
  }

  lemma NoListKey()
    ensures "k" !in MAP_KEYS && "k" !in LIST_KEYS && !IsSsid("a", "k")
  {
    assert |"address-data"| == 12 && |"route-data"| == 10 && |"routing-rules"| == 13 && |"peers"| == 5;
    assert |"dns-data"| == 8 && |"dns-search"| == 10 && |"dns-options"| == 11 && |"allowed-ips"| == 11;
    assert |"ssid"| == 4 && |"k"| == 1;
  }

  lemma PlainMeaning(c: Codec, g: string, k: string, val: string)
    requires k !in MAP_KEYS && k !in LIST_KEYS && !IsSsid(g, k)
    ensures Meaning(c, g, k, val) == (KeyfileVariant(c, val), false)
  {}

  lemma TextAgain(c: Codec, t: string)
    requires IsTrimmed(t)
    ensures Again(c, "a", "k", Str(t)) == (KeyfileVariant(c, t), false)
  {
    TrimmedStays(t);
    NoListKey();
    PlainMeaning(c, "a", "k", t);
  }

  lemma OneEntryReads(c: Codec, val: string)
    requires IsTrimmed(val) && '\n' !in val
    ensures Read(c, Print(c, OneEntry(Str(val)))).out == OneEntry(KeyfileVariant(c, val))
  {
    OneLined(c, Str(val));
    ReadsBack(c, OneEntry(Str(val)));
    TextAgain(c, val);
    OneAgain(c, Str(val));
  }

  lemma OneAgain(c: Codec, v: Variant)
    ensures Reread(c, OneEntry(v)) == OneEntry(Again(c, "a", "k", v).0)
  {
    SameMap(AgainAll(c, "a", map["k" := v]), map["k" := Again(c, "a", "k", v).0]);
    SameMap(Reread(c, OneEntry(v)), OneEntry(Again(c, "a", "k", v).0));
  }

  /**
    A file whose one entry is val, which spells out the line t: t is read, and written bare by a
    rewrite; it means t after that exactly if t does not look like the text of another value.
   */
  lemma TypedTextExactly(c: Codec, val: string, t: string)
    requires IsTrimmed(val) && '\n' !in val && KeyfileVariant(c, val) == Str(t)
    requires IsTrimmed(t) && '\n' !in t
    ensures
      var s := Read(c, Print(c, OneEntry(Str(val)))).out;
      && s == OneEntry(Str(t))
      && (Read(c, Print(c, s)).out == s <==> KeyfileVariant(c, t) == Str(t))
  {
    OneEntryReads(c, val);
    OneEntryReads(c, t);
    OneEntryIs(KeyfileVariant(c, t), Str(t));
  }

  /** It can: this entry spells out the text of a number. */
  lemma TypedTextExample(c: Codec)
    requires c.parse("s", "\"@u 5\"") == Some(Str("@u 5")) && c.parse("u", "5") == Some(Typed("u", "5"))
    ensures KeyfileVariant(c, "@s \"@u 5\"") == Str("@u 5") && KeyfileVariant(c, "@u 5") == Typed("u", "5")
  {
    TypedReads(c, "s", "\"@u 5\"");
    assert "@s \"@u 5\"" == "@" + "s" + " " + "\"@u 5\"";
    TypedReads(c, "u", "5");
    assert "@u 5" == "@" + "u" + " " + "5";
  }
}
