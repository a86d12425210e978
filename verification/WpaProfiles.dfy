/** The saved wifi networks: profile files named after their SSID, as a map keyed by SSID. */
module WpaProfiles {
  import opened Common
  import opened Text
  import opened WpaScan

  // ---- file names ------------------------------------------------------------------------------------

  predicate IsPlain(c: byte) {
    97 <= c <= 122 || 65 <= c <= 90 || 48 <= c <= 57 || c == 45 || c == 95 || c == 32
  }

  function Latin(s: seq<byte>): string { if s == [] then "" else [s[0] as char] + Latin(s[1..]) }

  function Hex(s: seq<byte>): string {
    if s == [] then "" else [Digit(s[0] / 16) as char, Digit(s[0] % 16) as char] + Hex(s[1..])
  }

  predicate AllPlain(ssid: Ssid) { forall c <- ssid :: IsPlain(c) }

  function Name(ssid: Ssid): string { if AllPlain(ssid) then Latin(ssid) else "=" + Hex(ssid) }

  method ProfileName(ssid: Ssid) returns (name: string)
    ensures name == Name(ssid)
  {
    for i := 0 to |ssid|
      invariant forall k :: 0 <= k < i ==> IsPlain(ssid[k])
    {
      var c := ssid[i];
      if !((c >= 97 && c <= 122) || (c >= 65 && c <= 90) || (c >= 48 && c <= 57) || c == 45 || c == 95 || c == 32) {
        assert c in ssid;
        return "=" + Hex(ssid);
      }
    }
    name := Latin(ssid);
  }

  lemma {:induction false} LatinInjective(a: seq<byte>, b: seq<byte>)
    requires Latin(a) == Latin(b)
    ensures a == b
    decreases |a|
  {
    if a != [] && b != [] {
      assert Latin(a)[0] == Latin(b)[0] && Latin(a)[1..] == Latin(a[1..]) && Latin(b)[1..] == Latin(b[1..]);
      LatinInjective(a[1..], b[1..]);
      assert a == [a[0]] + a[1..] && b == [b[0]] + b[1..];
    }
  }

  lemma DigitInjective(m: nat, n: nat)
    requires m < 16 && n < 16 && Digit(m) == Digit(n)
    ensures m == n
  {}

  lemma {:induction false} HexInjective(a: seq<byte>, b: seq<byte>)
    requires Hex(a) == Hex(b)
    ensures a == b
    decreases |a|
  {
    if a != [] && b != [] {
      assert Hex(a)[0] == Hex(b)[0] && Hex(a)[1] == Hex(b)[1];
      DigitInjective(a[0] / 16, b[0] / 16);
      DigitInjective(a[0] % 16, b[0] % 16);
      assert Hex(a)[2..] == Hex(a[1..]) && Hex(b)[2..] == Hex(b[1..]);
      HexInjective(a[1..], b[1..]);
      assert a == [a[0]] + a[1..] && b == [b[0]] + b[1..];
    }
  }

  lemma {:induction false} LatinChars(s: seq<byte>)
    requires AllPlain(s)
    ensures forall c <- Latin(s) :: c != '.' && c != '=' && c != '/'
    decreases |s|
  {
    if s != [] {
      assert s[0] in s;
      LatinChars(s[1..]);
    }
  }

  lemma {:induction false} HexChars(s: seq<byte>)
    ensures forall c <- Hex(s) :: c != '.' && c != '/'
    decreases |s|
  {
    if s != [] { HexChars(s[1..]); }
  }

  lemma NameChars(ssid: Ssid)
    ensures (forall c <- Name(ssid) :: c != '.' && c != '/') && (Name(ssid) == "" <==> ssid == [])
  {
    if AllPlain(ssid) { LatinChars(ssid); } else { HexChars(ssid); }
  }

  /** The equals sign at the front tells the two encodings apart. */
  lemma NameKind(ssid: Ssid)
    ensures AllPlain(ssid) <==> Name(ssid) == "" || Name(ssid)[0] != '='
  {
    if AllPlain(ssid) && ssid != [] {
      LatinChars(ssid);
      assert Name(ssid)[0] in Latin(ssid);
    }
  }

  /** Different SSIDs have different names. */
  lemma NameInjective(a: Ssid, b: Ssid)
    requires Name(a) == Name(b)
    ensures a == b
  {
    NameKind(a);
    NameKind(b);
    if AllPlain(a) {
      LatinInjective(a, b);
    } else {
      assert Name(a)[1..] == Hex(a) && Name(b)[1..] == Hex(b);
      HexInjective(a, b);
    }
  }

  // ---- files -----------------------------------------------------------------------------------------------

  type Files = map<string, string>

  datatype Ext = Psk | Open

  function Suffix(e: Ext): string { if e.Psk? then ".psk" else ".open" }

  /** filepath.Join, for a clean directory: an empty element adds nothing. */
  function Joined(dir: string, name: string): string { if name == "" then dir else dir + "/" + name }

  /** Where a profile is saved and looked up: the extension is added after joining. */
  function PathOf(dir: string, ssid: Ssid, e: Ext): string { Joined(dir, Name(ssid)) + Suffix(e) }

  /** Where a profile is removed: the extension is added before joining. */
  function RemovePath(dir: string, ssid: Ssid, e: Ext): string { Joined(dir, Name(ssid) + Suffix(e)) }

  lemma SuffixCut(m: string, n: string, e: Ext, f: Ext)
    requires m + Suffix(e) == n + Suffix(f) && '.' !in m && '.' !in n
    ensures m == n && e == f
  {
    var s := m + Suffix(e);
    assert s[|m|] == '.' && s[|n|] == '.';
    assert (forall k :: 0 <= k < |m| ==> s[k] == m[k] != '.') && forall k :: 0 <= k < |n| ==> s[k] == n[k] != '.';
    assert s[..|m|] == m && s[..|n|] == n;
  }

  /** The part of the path after the directory, less the extension. */
  function Stem(ssid: Ssid): string { if Name(ssid) == "" then "" else "/" + Name(ssid) }

  lemma PathSplits(dir: string, ssid: Ssid, e: Ext)
    ensures PathOf(dir, ssid, e) == dir + (Stem(ssid) + Suffix(e)) && '.' !in Stem(ssid)
  {
    NameChars(ssid);
    StemHasNoDot(Name(ssid));
    if Name(ssid) == "" {
      assert "" + Suffix(e) == Suffix(e);
    } else {
      FourParts(dir, "/", Name(ssid), Suffix(e));
    }
  }

  lemma StemHasNoDot(name: string)
    requires '.' !in name
    ensures '.' !in "/" + name
  {}

  lemma FourParts(a: string, b: string, c: string, d: string)
    ensures a + b + c + d == a + (b + c + d)
  {}

  lemma StemInjective(a: Ssid, b: Ssid)
    requires Stem(a) == Stem(b)
    ensures a == b
  {
    if Name(a) != "" && Name(b) != "" {
      assert Stem(a)[1..] == Name(a) && Stem(b)[1..] == Name(b);
    }
    NameInjective(a, b);
  }

  lemma PathsDiffer(dir: string, a: Ssid, b: Ssid, e: Ext, f: Ext)
    requires a != b || e != f
    ensures PathOf(dir, a, e) != PathOf(dir, b, f)
  {
    PathSplits(dir, a, e);
    PathSplits(dir, b, f);
    if PathOf(dir, a, e) == PathOf(dir, b, f) {
      AfterDir(dir, Stem(a) + Suffix(e), Stem(b) + Suffix(f));
      SuffixCut(Stem(a), Stem(b), e, f);
      StemInjective(a, b);
    }
  }

  lemma AfterDir(dir: string, x: string, y: string)
    requires dir + x == dir + y
    ensures x == y
  {
    assert (dir + x)[|dir|..] == x && (dir + y)[|dir|..] == y;
  }

  lemma RemovePathSame(dir: string, a: Ssid, e: Ext)
    requires a != []
    ensures RemovePath(dir, a, e) == PathOf(dir, a, e)
  {
    NameChars(a);
    assert dir + "/" + (Name(a) + Suffix(e)) == dir + "/" + Name(a) + Suffix(e);
  }

  lemma RemovePathOfEmpty(dir: string, e: Ext, b: Ssid, f: Ext)
    ensures RemovePath(dir, [], e) != PathOf(dir, b, f)
  {
    NameChars([]);
    NameChars(b);
    PathSplits(dir, b, f);
    assert RemovePath(dir, [], e) == dir + ("/" + Suffix(e));
    if RemovePath(dir, [], e) == PathOf(dir, b, f) {
      AfterDir(dir, "/" + Suffix(e), Stem(b) + Suffix(f));
      SuffixCut("/", Stem(b), e, f);
    }
  }

  /** Removal goes for the saved files, except for the empty SSID, whose files it never names. */
  lemma RemovePathIs(dir: string, a: Ssid, e: Ext)
    ensures a != [] ==> RemovePath(dir, a, e) == PathOf(dir, a, e)
    ensures a == [] ==> forall b, f :: RemovePath(dir, a, e) != PathOf(dir, b, f)
  {
    if a != [] {
      RemovePathSame(dir, a, e);
    } else {
      forall b, f ensures RemovePath(dir, a, e) != PathOf(dir, b, f) {
        RemovePathOfEmpty(dir, e, b, f);
      }
    }
  }

  // ---- contents -----------------------------------------------------------------------------------------------

  predicate IsHexDigit(c: char) { '0' <= c <= '9' || 'a' <= c <= 'f' || 'A' <= c <= 'F' }

  predicate IsRawPSK(psk: string) { |psk| == 64 && forall c <- psk :: IsHexDigit(c) }

  function ProfileText(psk: string): string {
    "[Security]" + "\n" + ((if IsRawPSK(psk) then "PreSharedKey" else "Passphrase") + "=" + psk + "\n" + "")
  }

  function NoteLine(line: string, psk: string): string {
    var i := IndexOf(line, '=');
    if i < 0 then psk
    else if Trim(line[..i]) == "Passphrase" then Trim(line[i + 1..])
    else if Trim(line[..i]) == "PreSharedKey" && psk == "" then Trim(line[i + 1..])
    else psk
  }

  function NoteLines(ls: seq<string>, psk: string): string {
    if ls == [] then psk else NoteLines(ls[1..], NoteLine(ls[0], psk))
  }

  method ReadSecret(data: string) returns (psk: string)
    ensures psk == NoteLines(Lines(data), "")
  {
    psk := "";
    var ls := Lines(data);
    for i := 0 to |ls|
      invariant NoteLines(ls, "") == NoteLines(ls[i..], psk)
    {
      assert ls[i..][1..] == ls[i + 1..];
      var eq := IndexOf(ls[i], '=');
      if eq < 0 { continue; }
      var k, v := Trim(ls[i][..eq]), ls[i][eq + 1..];
      if k == "Passphrase" {
        psk := Trim(v);
      } else if k == "PreSharedKey" {
        if psk == "" { psk := Trim(v); }
      }
    }
  }

  lemma {:induction false} NotedIsOneLine(ls: seq<string>, psk: string)
    requires IsTrimmed(psk) && '\n' !in psk && forall l <- ls :: '\n' !in l
    ensures IsTrimmed(NoteLines(ls, psk)) && '\n' !in NoteLines(ls, psk)
    decreases |ls|
  {
    if ls != [] {
      var i := IndexOf(ls[0], '=');
      assert '\n' !in ls[0];
      if i >= 0 { TrimKeeps(ls[0][i + 1..], '\n'); }
      NotedIsOneLine(ls[1..], NoteLine(ls[0], psk));
    }
  }

  lemma NotesValue(key: string, v: string)
    requires key == "Passphrase" || key == "PreSharedKey"
    ensures NoteLine(key + "=" + v, "") == Trim(v)
  {
    var line := key + "=" + v;
    IndexAfter(key, '=', v);
    assert line[..|key|] == key && line[|key| + 1..] == v;
    TrimmedStays(key);
  }

  lemma NotesNothing()
    ensures NoteLine("[Security]", "") == "" && forall psk :: NoteLine("", psk) == psk
  {}

  lemma ProfileLines(key: string, psk: string)
    requires '\n' !in key && '\n' !in psk
    ensures Lines("[Security]" + "\n" + (key + "=" + psk + "\n" + "")) == ["[Security]", key + "=" + psk, ""]
  {
    var line := key + "=" + psk;
    FirstLine("[Security]", line + "\n" + "");
    FirstLine(line, "");
    assert Lines("") == [""];
  }

  /** A secret read back is the one written exactly when it is a single trimmed line. */
  lemma SecretReadsBack(psk: string)
    ensures NoteLines(Lines(ProfileText(psk)), "") == psk <==> IsTrimmed(psk) && '\n' !in psk
  {
    var key := if IsRawPSK(psk) then "PreSharedKey" else "Passphrase";
    NotedIsOneLine(Lines(ProfileText(psk)), "");
    if IsTrimmed(psk) && '\n' !in psk {
      ProfileLines(key, psk);
      ThreeLines("[Security]", key + "=" + psk, "");
      NotesNothing();
      NotesValue(key, psk);
      TrimmedStays(psk);
    }
  }

  lemma ThreeLines(a: string, b: string, c: string)
    ensures NoteLines([a, b, c], "") == NoteLine(c, NoteLine(b, NoteLine(a, "")))
  {
    assert [a, b, c][1..] == [b, c] && [b, c][1..] == [c] && [c][1..] == [];
    assert NoteLines([b, c], NoteLine(a, "")) == NoteLines([c], NoteLine(b, NoteLine(a, "")));
  }

  // ---- the store ---------------------------------------------------------------------------------------------------

  /** The saved secret of ssid, empty for an open network. */
  function Lookup(dir: string, files: Files, ssid: Ssid): Option<string> {
    if PathOf(dir, ssid, Open) in files then Some("")
    else if PathOf(dir, ssid, Psk) in files then Some(NoteLines(Lines(files[PathOf(dir, ssid, Psk)]), ""))
    else None
  }

  function Saved(dir: string, files: Files, ssid: Ssid, sec: Security, psk: string): Files {
    if sec.SecOpen? then files[PathOf(dir, ssid, Open) := ""] else files[PathOf(dir, ssid, Psk) := ProfileText(psk)]
  }

  function Forgotten(dir: string, files: Files, ssid: Ssid): Files {
    files - {RemovePath(dir, ssid, Psk), RemovePath(dir, ssid, Open)}
  }

  class Store {
    const dir: string
    var files: Files

    constructor (dir: string, files: Files)
      ensures this.dir == dir && this.files == files
    {
      this.dir, this.files := dir, files;
    }

    method Profile(ssid: Ssid) returns (psk: Option<string>)
      ensures psk == Lookup(dir, files, ssid)
    {
      var name := ProfileName(ssid);
      name := Joined(dir, name);
      if name + ".open" in files { return Some(""); }
      if name + ".psk" !in files { return None; }
      var secret := ReadSecret(files[name + ".psk"]);
      psk := Some(secret);
    }

    method SaveProfile(ssid: Ssid, sec: Security, psk: string)
      modifies this
      ensures files == Saved(dir, old(files), ssid, sec, psk)
    {
      var name := ProfileName(ssid);
      name := Joined(dir, name);
      if sec == SecOpen {
        files := files[name + ".open" := ""];
        return;
      }
      var key := if IsRawPSK(psk) then "PreSharedKey" else "Passphrase";
      var text := "[Security]\n" + key + "=" + psk + "\n";
      assert text == ProfileText(psk);
      files := files[name + ".psk" := text];
    }

    method Forget(ssid: Ssid) returns (ok: bool)
      modifies this
      ensures files == Forgotten(dir, old(files), ssid)
      ensures ok <==> exists e :: RemovePath(dir, ssid, e) in old(files)
    {
      var name := ProfileName(ssid);
      var psk, open := Joined(dir, name + ".psk"), Joined(dir, name + ".open");
      assert psk == RemovePath(dir, ssid, Psk) && open == RemovePath(dir, ssid, Open);
      ok := psk in files || open in files;
      files := files - {psk};
      files := files - {open};
    }
  }

  // ---- the store is a map keyed by SSID -------------------------------------------------------------------

  /** Saving for one SSID leaves every other alone. */
  lemma SaveKeepsOthers(dir: string, files: Files, a: Ssid, sec: Security, psk: string, b: Ssid)
    requires a != b
    ensures Lookup(dir, Saved(dir, files, a, sec, psk), b) == Lookup(dir, files, b)
  {
    PathsDiffer(dir, a, b, Open, Open);
    PathsDiffer(dir, a, b, Open, Psk);
    PathsDiffer(dir, a, b, Psk, Open);
    PathsDiffer(dir, a, b, Psk, Psk);
  }

  lemma OpenReadsBack(dir: string, files: Files, ssid: Ssid)
    ensures Lookup(dir, Saved(dir, files, ssid, SecOpen, ""), ssid) == Some("")
  {}

  /** A saved secret reads back exactly when it is one trimmed line and no open profile is in the way. */
  lemma SecretSurvives(dir: string, files: Files, ssid: Ssid, sec: Security, psk: string)
    requires !sec.SecOpen?
    ensures
      Lookup(dir, Saved(dir, files, ssid, sec, psk), ssid) == Some(psk)
      <==> psk == "" || (PathOf(dir, ssid, Open) !in files && IsTrimmed(psk) && '\n' !in psk)
  {
    PathsDiffer(dir, ssid, ssid, Psk, Open);
    SecretReadsBack(psk);
  }

  lemma ForgetKeepsOthers(dir: string, files: Files, a: Ssid, b: Ssid)
    requires a != b
    ensures Lookup(dir, Forgotten(dir, files, a), b) == Lookup(dir, files, b)
  {
    RemovePathIs(dir, a, Psk);
    RemovePathIs(dir, a, Open);
    PathsDiffer(dir, a, b, Open, Open);
    PathsDiffer(dir, a, b, Open, Psk);
    PathsDiffer(dir, a, b, Psk, Open);
    PathsDiffer(dir, a, b, Psk, Psk);
  }

  /** Forgetting forgets, for every SSID but the empty one, whose profile stays. */
  lemma ForgetForgets(dir: string, files: Files, ssid: Ssid)
    ensures Lookup(dir, Forgotten(dir, files, ssid), ssid) == if ssid == [] then Lookup(dir, files, ssid) else None
  {
    RemovePathIs(dir, ssid, Psk);
    RemovePathIs(dir, ssid, Open);
  }

  /**
    It reports success exactly if there was a profile; for the empty SSID instead exactly if the
    directory holds a file that no profile is ever saved under.
   */
  lemma ForgetReports(dir: string, files: Files, ssid: Ssid)
    ensures
      (exists e :: RemovePath(dir, ssid, e) in files)
      <==> if ssid == [] then dir + "/.psk" in files || dir + "/.open" in files else Lookup(dir, files, ssid).Some?
    ensures forall b, f :: PathOf(dir, b, f) != dir + "/.psk" && PathOf(dir, b, f) != dir + "/.open"
  {
    assert RemovePath(dir, [], Psk) == dir + "/" + ".psk" == dir + "/.psk";
    assert RemovePath(dir, [], Open) == dir + "/" + ".open" == dir + "/.open";
    RemovePathIs(dir, [], Psk);
    RemovePathIs(dir, [], Open);
    RemovePathIs(dir, ssid, Psk);
    RemovePathIs(dir, ssid, Open);
    assert RemovePath(dir, ssid, Psk) in files || RemovePath(dir, ssid, Open) in files
      <==> exists e :: RemovePath(dir, ssid, e) in files;
  }

  // ---- what the files are called and hold --------------------------------------------------------------------

  /** Letters, digits, minus, underscore and space: what a file may be named after as it is. */
  predicate NamesItself(c: byte) {
    var x := c as char;
    'a' <= x <= 'z' || 'A' <= x <= 'Z' || '0' <= x <= '9' || x == '-' || x == '_' || x == ' '
  }

  /** name spells the SSID in pairs of hexadecimal digits. */
  predicate SpellsHex(name: string, ssid: Ssid) {
    if ssid == [] then name == ""
    else
      && |name| >= 2 && name[0] as int < 256 && name[1] as int < 256
      && HexByte([name[0] as int, name[1] as int]) == Some(ssid[0]) && SpellsHex(name[2..], ssid[1..])
  }

  lemma {:induction false} LatinIs(s: seq<byte>)
    ensures Says(s, Latin(s))
    decreases |s|
  {
    if s != [] { LatinIs(s[1..]); }
  }

  lemma {:induction false} HexIs(s: seq<byte>)
    ensures SpellsHex(Hex(s), s)
    decreases |s|
  {
    if s != [] {
      HexIs(s[1..]);
      HexDigits(s[0]);
      assert Hex(s)[2..] == Hex(s[1..]);
    }
  }

  /** A file is named after its SSID if that consists of such characters, and else after its bytes. */
  lemma NameExactly(ssid: Ssid)
    ensures (forall c <- ssid :: NamesItself(c)) ==> Says(ssid, Name(ssid))
    ensures (exists c <- ssid :: !NamesItself(c)) ==>
      Name(ssid) != "" && Name(ssid)[0] == '=' && SpellsHex(Name(ssid)[1..], ssid)
  {
    LatinIs(ssid);
    HexIs(ssid);
    NameChars(ssid);
    assert ("=" + Hex(ssid))[1..] == Hex(ssid);
    assert AllPlain(ssid) <==> forall c <- ssid :: NamesItself(c);
  }

  /** The file stands in the directory and tells the two kinds of profile apart. */
  lemma PathExactly(dir: string, ssid: Ssid)
    requires ssid != []
    ensures PathOf(dir, ssid, Psk) == dir + "/" + Name(ssid) + ".psk"
    ensures PathOf(dir, ssid, Open) == dir + "/" + Name(ssid) + ".open"
  {
    NameChars(ssid);
  }

  /** What is saved of a one-line secret: a key of 64 hexadecimal digits as such, anything else as a passphrase. */
  lemma ProfileSays(psk: string)
    requires '\n' !in psk
    ensures
      var isKey := |psk| == 64 && forall c <- psk :: '0' <= c <= '9' || 'a' <= c <= 'f' || 'A' <= c <= 'F';
      Lines(ProfileText(psk)) == ["[Security]", (if isKey then "PreSharedKey" else "Passphrase") + "=" + psk, ""]
  {
    ProfileLines(if IsRawPSK(psk) then "PreSharedKey" else "Passphrase", psk);
  }

  lemma NotesEither(v: string, psk: string)
    ensures NoteLine("Passphrase" + "=" + v, psk) == Trim(v)
    ensures NoteLine("PreSharedKey" + "=" + v, psk) == if psk == "" then Trim(v) else psk
  {
    KeyAndValue("PreSharedKey", v);
    KeyAndValue("Passphrase", v);
    assert |"PreSharedKey"| != |"Passphrase"|;
  }

  lemma TwoLines(a: string, b: string)
    ensures NoteLines([a, b], "") == NoteLine(b, NoteLine(a, ""))
  {
    assert [a, b][1..] == [b] && [b][1..] == [];
    assert NoteLines([b], NoteLine(a, "")) == NoteLines([], NoteLine(b, NoteLine(a, "")));
  }

  /** Of a key and a passphrase in one file the passphrase counts, in either order. */
  lemma PassphraseWins(key: string, pass: string)
    requires Trim(pass) != ""
    ensures
      var k, p := "PreSharedKey" + "=" + key, "Passphrase" + "=" + pass;
      NoteLines([k, p], "") == NoteLines([p, k], "") == Trim(pass)
  {
    var k, p := "PreSharedKey" + "=" + key, "Passphrase" + "=" + pass;
    TwoLines(k, p);
    TwoLines(p, k);
    NotesEither(pass, NoteLine(k, ""));
    NotesEither(pass, "");
    NotesEither(key, Trim(pass));
  }

  lemma KeyAndValue(key: string, v: string)
    requires key == "Passphrase" || key == "PreSharedKey"
    ensures
      var line := key + "=" + v;
      IndexOf(line, '=') == |key| && Trim(line[..|key|]) == key && line[|key| + 1..] == v
  {
    var line := key + "=" + v;
    IndexAfter(key, '=', v);
    assert line[..|key|] == key && line[|key| + 1..] == v;
    TrimmedStays(key);
  }
}
