/** The profile store's keyfile: writer, reader, and what a profile is after a trip through the disk. */
module Keyfile {
  import opened Common
  import opened Sorting
  import opened Text
  import Legacy

  /** A D-Bus value; any value that is neither text nor a legacy list is known by its printed form. */
  datatype Variant =
    | Bytes(text: string)
    | Str(text: string)
    | Strings(items: seq<string>)
    | Maps(maps: seq<map<string, Variant>>)
    | Typed(signature: string, body: string)

  /** godbus: signature and printed form of a value, and the parsers with and without a signature. */
  datatype Codec = Codec(
    sig: Variant -> string,
    show: Variant -> string,
    parse: (string, string) -> Option<Variant>,
    guess: string -> Option<Variant>)

  type Settings = map<string, map<string, Variant>>

  const WIFI := "802-11-wireless"
  const ALIASES := {"wifi", "wifi-security", "ethernet"}
  const MAP_KEYS := {"address-data", "route-data", "routing-rules", "peers"}
  const LIST_KEYS := {"dns-data", "dns-search", "dns-options", "allowed-ips"}

  predicate IsSsid(g: string, k: string) { g == WIFI && k == "ssid" }

  // ---- group names ------------------------------------------------------------------------------------

  function KeyfileGroup(g: string): string {
    if g == WIFI then "wifi"
    else if g == "802-11-wireless-security" then "wifi-security"
    else if g == "802-3-ethernet" then "ethernet"
    else g
  }

  function DbusGroup(k: string): string {
    if k == "wifi" then WIFI
    else if k == "wifi-security" then "802-11-wireless-security"
    else if k == "ethernet" then "802-3-ethernet"
    else k
  }

  /** A group survives the renaming exactly when it is not itself one of the short names. */
  lemma GroupNames(g: string)
    ensures DbusGroup(KeyfileGroup(g)) == g <==> g !in ALIASES
  {
    assert |WIFI| == 15 && |"802-11-wireless-security"| == 24 && |"802-3-ethernet"| == 14;
    assert |"wifi"| == 4 && |"wifi-security"| == 13 && |"ethernet"| == 8;
  }

  // ---- values --------------------------------------------------------------------------------------------

  function KeyfileValue(c: Codec, v: Variant): string {
    match v
    case Bytes(text) => text
    case Str(text) => text
    case _ => "@" + c.sig(v) + " " + c.show(v)
  }

  function KeyfileVariant(c: Codec, val: string): Variant {
    if !("@" <= val) then Str(val)
    else
      var sp := IndexOf(val, ' ');
      if sp <= 1 then Str(val)
      else
        var v := c.parse(val[1..sp], val[sp + 1..]);
        if v.Some? then v.value else Str(val)
  }

  /** What an untyped value under key means if it is a list in the old form. */
  function LegacyValue(c: Codec, key: string, val: string): Option<Variant> {
    if |val| < 2 || val[0] != '[' || val[|val| - 1] != ']' then None
    else
      var inner := Trim(val[1..|val| - 1]);
      if key in MAP_KEYS then
        var maps := Legacy.MapsSpec(c.guess, inner);
        if maps.None? then None else Some(Maps(maps.value))
      else if key in LIST_KEYS then Some(Strings(Legacy.StringsSpec(inner)))
      else None
  }

  method LegacyVariant(c: Codec, key: string, val: string) returns (r: Option<Variant>)
    ensures r == LegacyValue(c, key, val)
  {
    if !("[" <= val) || val[|val| - 1] != ']' { return None; }
    var inner := Trim(val[1..|val| - 1]);
    if key in MAP_KEYS {
      var maps := Legacy.LegacyMaps(c.guess, inner);
      if maps.None? { return None; }
      return Some(Maps(maps.value));
    }
    if key in LIST_KEYS {
      var strings := Legacy.LegacyStrings(inner);
      return Some(Strings(strings));
    }
    r := None;
  }

  // ---- reading -------------------------------------------------------------------------------------------

  datatype Reading = Reading(group: string, out: Settings, legacy: bool)

  function AddEntry(st: Reading, key: string, v: Variant, legacy: bool): Reading {
    var kv: map<string, Variant> := if st.group in st.out then st.out[st.group] else map[];
    st.(out := st.out[st.group := kv[key := v]], legacy := st.legacy || legacy)
  }

  function Meaning(c: Codec, group: string, key: string, val: string): (Variant, bool) {
    if IsSsid(group, key) then (Bytes(val), false)
    else if !("@" <= val) && LegacyValue(c, key, val).Some? then (LegacyValue(c, key, val).value, true)
    else (KeyfileVariant(c, val), false)
  }

  function ReadValue(c: Codec, st: Reading, key: string, val: string): Reading {
    var m := Meaning(c, st.group, key, val);
    AddEntry(st, key, m.0, m.1)
  }

  predicate IsHeading(line: string) { line != "" && line[0] == '[' && line[|line| - 1] == ']' }

  function ReadTrimmed(c: Codec, st: Reading, line: string): Reading {
    if line == "" || line[0] == '#' then st
    else if IsHeading(line) then
      var g := DbusGroup(line[1..|line| - 1]);
      st.(group := g, out := st.out[g := map[]])
    else
      var eq := IndexOf(line, '=');
      if eq < 0 || st.group == "" then st
      else ReadValue(c, st, Trim(line[..eq]), Trim(line[eq + 1..]))
  }

  function ReadLines(c: Codec, st: Reading, lines: seq<string>): Reading
    decreases |lines|
  {
    if lines == [] then st else ReadLines(c, ReadTrimmed(c, st, Trim(lines[0])), lines[1..])
  }

  const START := Reading("", map[], false)

  function Read(c: Codec, text: string): Reading { ReadLines(c, START, Lines(text)) }

  method ReadKeyfile(c: Codec, text: string) returns (out: Settings, legacy: bool)
    ensures out == Read(c, text).out && legacy == Read(c, text).legacy
  {
    legacy := false;
    out := map[];
    var group := "";
    var lines := Lines(text);
    for i := 0 to |lines|
      invariant ReadLines(c, Reading(group, out, legacy), lines[i..]) == Read(c, text)
      invariant group != "" ==> group in out
    {
      assert lines[i..][1..] == lines[i + 1..];
      group, out, legacy := ReadLine(c, group, out, legacy, Trim(lines[i]));
    }
  }

  /** The loop body of ReadKeyfile, on the trimmed line. */
  method ReadLine(c: Codec, group0: string, out0: Settings, legacy0: bool, line: string)
    returns (group: string, out: Settings, legacy: bool)
    requires group0 != "" ==> group0 in out0
    ensures Reading(group, out, legacy) == ReadTrimmed(c, Reading(group0, out0, legacy0), line)
    ensures group != "" ==> group in out
  {
    group, out, legacy := group0, out0, legacy0;
    if line == "" || "#" <= line { return; }
    if "[" <= line && line[|line| - 1] == ']' {
      group := DbusGroup(line[1..|line| - 1]);
      out := out[group := map[]];
      return;
    }
    var eq := IndexOf(line, '=');
    if eq < 0 || group == "" { return; }
    var key, val := Trim(line[..eq]), Trim(line[eq + 1..]);
    var v, untyped := Interpret(c, group, key, val);
    out := out[group := out[group][key := v]];
    legacy := legacy || untyped;
  }

  /** The end of the loop body of ReadKeyfile: the value of one entry, and whether it is in the old form. */
  method Interpret(c: Codec, group: string, key: string, val: string) returns (v: Variant, legacy: bool)
    ensures (v, legacy) == Meaning(c, group, key, val)
  {
    if group == WIFI && key == "ssid" { return Bytes(val), false; }
    if !("@" <= val) {
      var l := LegacyVariant(c, key, val);
      if l.Some? { return l.value, true; }
    }
    return KeyfileVariant(c, val), false;
  }

  // ---- writing -------------------------------------------------------------------------------------------

  ghost function SortedKeys(s: set<string>): (ks: seq<string>)
    ensures forall k :: k in ks <==> k in s
  {
    SortedKeysHold(s);
    SortStrings(Enumerate(s))
  }

  lemma SortedKeysHold(s: set<string>)
    ensures forall k :: k in SortStrings(Enumerate(s)) <==> k in s
  {
    EnumerateAll(s);
    SortHolds(AtMost, Enumerate(s));
    forall k ensures k in SortStrings(Enumerate(s)) <==> k in s {
      assert k in SortStrings(Enumerate(s)) <==> k in multiset(SortStrings(Enumerate(s)));
    }
  }

  /** The groups of a file and the keys of a group stand in ascending order. */
  lemma KeysAscend(s: set<string>, i: nat, j: nat)
    requires i < j < |SortedKeys(s)|
    ensures Smaller(SortedKeys(s)[i], SortedKeys(s)[j])
  {
    StringsLinear(Enumerate(s));
    SortSorts(AtMost, Enumerate(s));
    Lexicographic(SortedKeys(s)[i], SortedKeys(s)[j]);
  }

  /** Whatever order the map is walked in, the sorted keys are the same. */
  method KeysInOrder(keys: set<string>) returns (ks: seq<string>)
    ensures ks == SortedKeys(keys)
  {
    ks := [];
    var left := keys;
    while left != {}
      invariant left <= keys && multiset(ks) == multiset(keys - left)
      decreases left
    {
      var k :| k in left;
      assert keys - (left - {k}) == (keys - left) + {k};
      ks := ks + [k];
      left := left - {k};
    }
    assert keys - left == keys;
    EnumerateAll(keys);
    StringsLinear(ks);
    SortForgetsOrder(AtMost, ks, Enumerate(keys));
    ks := SortStrings(ks);
  }

  /** The lines of the entries ks of a group, with rest after them. */
  function EntriesTo(c: Codec, kv: map<string, Variant>, ks: seq<string>, rest: string): string
    requires forall k <- ks :: k in kv
  {
    if ks == [] then rest
    else ks[0] + "=" + KeyfileValue(c, kv[ks[0]]) + "\n" + EntriesTo(c, kv, ks[1..], rest)
  }

  lemma EntriesNext(c: Codec, kv: map<string, Variant>, ks: seq<string>, i: nat, rest: string)
    requires i < |ks| && forall k <- ks :: k in kv
    ensures
      var line := ks[i] + "=" + KeyfileValue(c, kv[ks[i]]) + "\n";
      EntriesTo(c, kv, ks[i..], rest) == line + EntriesTo(c, kv, ks[i + 1..], rest)
  {
    assert ks[i..][1..] == ks[i + 1..];
  }

  lemma Regrouped(a: string, b: string, c: string)
    ensures a + (b + c) == a + b + c
  {}

  ghost function GroupTo(c: Codec, g: string, kv: map<string, Variant>, rest: string): string {
    "[" + KeyfileGroup(g) + "]" + "\n" + EntriesTo(c, kv, SortedKeys(kv.Keys), "\n" + rest)
  }

  ghost function GroupsTo(c: Codec, s: Settings, gs: seq<string>): string
    requires forall g <- gs :: g in s
  {
    if gs == [] then "" else GroupTo(c, gs[0], s[gs[0]], GroupsTo(c, s, gs[1..]))
  }

  ghost function Print(c: Codec, s: Settings): string {
    GroupsTo(c, s, SortedKeys(s.Keys))
  }

  method WriteKeyfile(c: Codec, settings: Settings) returns (text: string)
    ensures text == Print(c, settings)
  {
    text := "";
    var groups := KeysInOrder(settings.Keys);
    for i := 0 to |groups|
      invariant text + GroupsTo(c, settings, groups[i..]) == Print(c, settings)
    {
      assert groups[i..][1..] == groups[i + 1..];
      ghost var rest := GroupsTo(c, settings, groups[i + 1..]);
      var group := WriteGroup(c, groups[i], settings[groups[i]], rest);
      Regrouped(text, group, rest);
      text := text + group;
    }
  }

  method WriteGroup(c: Codec, g: string, kv: map<string, Variant>, ghost rest: string) returns (text: string)
    ensures text + rest == GroupTo(c, g, kv, rest)
  {
    var entries := WriteEntries(c, kv, "\n" + rest);
    text := "[" + KeyfileGroup(g) + "]" + "\n" + entries + "\n";
    assert "[" + KeyfileGroup(g) + "]" + "\n" + (entries + ("\n" + rest)) == text + rest;
  }

  method WriteEntries(c: Codec, kv: map<string, Variant>, ghost rest: string) returns (text: string)
    ensures text + rest == EntriesTo(c, kv, SortedKeys(kv.Keys), rest)
  {
    text := "";
    var keys := KeysInOrder(kv.Keys);
    for i := 0 to |keys|
      invariant text + EntriesTo(c, kv, keys[i..], rest) == EntriesTo(c, kv, keys, rest)
    {
      var line := keys[i] + "=" + KeyfileValue(c, kv[keys[i]]) + "\n";
      EntriesNext(c, kv, keys, i, rest);
      Regrouped(text, line, EntriesTo(c, kv, keys[i + 1..], rest));
      text := text + line;
    }
  }

  /** fs spells the strings ws, each bare or in quotes. */
  predicate Spells(fs: seq<string>, ws: seq<string>) {
    |fs| == |ws| && forall i :: 0 <= i < |ws| ==> fs[i] == ws[i] || fs[i] == "\"" + ws[i] + "\""
  }

  /** A list of strings in the old form is read as exactly those strings. */
  lemma LegacyStringsRead(c: Codec, key: string, ws: seq<string>, fs: seq<string>)
    requires key in LIST_KEYS && Spells(fs, ws) && forall w <- ws :: w != "" && NoSpace(w) && !Legacy.QuoteEdged(w)
    ensures LegacyValue(c, key, "[" + Join(fs) + "]") == Some(Strings(ws))
    ensures '\n' !in Join(fs)
  {
    var val := "[" + Join(fs) + "]";
    assert val[1..|val| - 1] == Join(fs);
    forall f | f in fs ensures f != "" && NoSpace(f) {
      var i :| 0 <= i < |fs| && fs[i] == f;
      assert ws[i] in ws;
    }
    JoinIsTrimmed(fs);
    TrimmedStays(Join(fs));
    Legacy.SpelledStrings(ws, fs);
    JoinHasNoLineFeed(fs);
    KeysDiffer(key);
  }

  lemma KeysDiffer(key: string)
    requires key in LIST_KEYS
    ensures key !in MAP_KEYS
  {
    assert |"dns-data"| == 8 && |"dns-search"| == 10 && |"dns-options"| == |"allowed-ips"| == 11;
    assert |"address-data"| == 12 && |"route-data"| == 10 && |"routing-rules"| == 13 && |"peers"| == 5;
    assert "dns-search"[0] != "route-data"[0];
  }

  /** A list of maps in the old form is read as exactly the printed maps. */
  lemma LegacyMapsRead(c: Codec, key: string, ms: seq<seq<Legacy.Pair>>)
    requires key in MAP_KEYS && forall ps <- ms, p <- ps :: Legacy.OkPair(p)
    ensures
      LegacyValue(c, key, "[" + Legacy.PrintMaps(ms) + "]")
      == var maps := Legacy.MapsOf(c.guess, ms); if maps.None? then None else Some(Maps(maps.value))
  {
    var val := "[" + Legacy.PrintMaps(ms) + "]";
    assert val[1..|val| - 1] == Legacy.PrintMaps(ms);
    Legacy.PrintedMapsEdges(ms);
    TrimmedStays(Legacy.PrintMaps(ms));
    Legacy.MapsUndoPrint(c.guess, ms);
  }

  /** Between brackets, the list of a key that has one. */
  ghost predicate IsOldList(c: Codec, key: string, val: string) {
    && |val| >= 2 && val[0] == '[' && val[|val| - 1] == ']'
    && (key in {"dns-data", "dns-search", "dns-options", "allowed-ips"}
        || (key in {"address-data", "route-data", "routing-rules", "peers"}
            && Legacy.MapsSpec(c.guess, val[1..|val| - 1]).Some?))
  }

  /** An entry is read in the old form exactly if it is such a list; no other key or value is, nor the ssid. */
  lemma OldFormExactly(c: Codec, group: string, key: string, val: string)
    ensures Meaning(c, group, key, val).1 <==> IsOldList(c, key, val) && !(group == WIFI && key == "ssid")
    ensures !Meaning(c, group, key, val).1 ==>
      Meaning(c, group, key, val).0 == if group == WIFI && key == "ssid" then Bytes(val) else KeyfileVariant(c, val)
  {
    if |val| >= 2 {
      var inner := val[1..|val| - 1];
      TrimmedStays(Trim(inner));
    }
  }

  /** val is marked with a signature that its text can be parsed under. */
  ghost predicate IsTyped(c: Codec, val: string, sig: string, body: string) {
    sig != "" && ' ' !in sig && val == "@" + sig + " " + body && c.parse(sig, body).Some?
  }

  /** A marked value is what its text parses to under its signature; everything else is a string. */
  lemma TypedExactly(c: Codec, val: string)
    ensures forall sig, body | IsTyped(c, val, sig, body) :: KeyfileVariant(c, val) == c.parse(sig, body).value
    ensures (forall sig, body :: !IsTyped(c, val, sig, body)) ==> KeyfileVariant(c, val) == Str(val)
  {
    forall sig, body | IsTyped(c, val, sig, body) ensures KeyfileVariant(c, val) == c.parse(sig, body).value {
      TypedReads(c, sig, body);
    }
    var sp := IndexOf(val, ' ');
    if "@" <= val && sp > 1 {
      assert val == "@" + val[1..sp] + " " + val[sp + 1..];
      assert ' ' !in val[1..sp] by { assert forall x <- val[1..sp] :: x in val[..sp]; }
      assert c.parse(val[1..sp], val[sp + 1..]).Some? ==> IsTyped(c, val, val[1..sp], val[sp + 1..]);
    }
  }

  lemma TypedReads(c: Codec, sig: string, body: string)
    requires sig != "" && ' ' !in sig && c.parse(sig, body).Some?
    ensures KeyfileVariant(c, "@" + sig + " " + body) == c.parse(sig, body).value
  {
    var val := "@" + sig + " " + body;
    IndexAfter("@" + sig, ' ', body);
    assert val == "@" + sig + [' '] + body;
    assert val[1..1 + |sig|] == sig && val[1 + |sig| + 1..] == body;
  }
}
