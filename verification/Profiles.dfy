/** A stored profile: what clients read of it, what an update keeps, and what lands on disk. */
module Profiles {
  import opened Common
  import Keyfile
  import Trips = KeyfileTrips

  type Settings = Keyfile.Settings

  type Group = map<string, Keyfile.Variant>

  const SECURITY := "802-11-wireless-security"
  const WIREGUARD := "wireguard"

  /** The fields that an update may omit without losing them. */
  predicate IsSecret(g: string, k: string) { (g == SECURITY && k == "psk") || (g == WIREGUARD && k == "private-key") }

  /** cloneSettings without secrets: the wifi passphrase is left out. */
  function Stripped(s: Settings): Settings { map g | g in s :: if g == SECURITY then s[g] - {"psk"} else s[g] }

  function KeptOne(next: Settings, prev: Settings, g: string, k: string): Settings {
    if g in prev && k in prev[g] && g in next && k !in next[g] then next[g := next[g][k := prev[g][k]]] else next
  }

  function Kept(next: Settings, prev: Settings): Settings {
    KeptOne(KeptOne(next, prev, SECURITY, "psk"), prev, WIREGUARD, "private-key")
  }

  class SettingsConnection {
    var settings: Settings
    var file: string

    constructor (settings: Settings, file: string)
      ensures this.settings == settings && this.file == file
    {
      this.settings, this.file := settings, file;
    }

    method GetSettings() returns (out: Settings)
      ensures out == Stripped(settings)
    {
      out := map[];
      var left := settings.Keys;
      while left != {}
        invariant left <= settings.Keys
        invariant out == map g | g in settings && g !in left :: Stripped(settings)[g]
        decreases left
      {
        var g :| g in left;
        var kv := settings[g];
        if g == SECURITY { kv := kv - {"psk"}; }
        out := out[g := kv];
        left := left - {g};
      }
    }

    /** written says whether the file could be replaced; the profile changes either way. */
    method Update(c: Keyfile.Codec, next: Settings, written: bool)
      modifies this
      ensures settings == Kept(next, old(settings))
      ensures file == if written then Keyfile.Print(c, settings) else old(file)
    {
      settings := KeepSecrets(next);
      var text := Keyfile.WriteKeyfile(c, settings);
      if written { file := text; }
    }

    method KeepSecrets(next: Settings) returns (out: Settings)
      ensures out == Kept(next, settings)
    {
      out := next;
      var secrets := [(SECURITY, "psk"), (WIREGUARD, "private-key")];
      for i := 0 to 2
        invariant out == if i == 0 then next
                         else if i == 1 then KeptOne(next, settings, SECURITY, "psk") else Kept(next, settings)
      {
        var (g, k) := secrets[i];
        if g in settings && k in settings[g] && g in out && k !in out[g] {
          out := out[g := out[g][k := settings[g][k]]];
        }
      }
    }
  }

  lemma SecretGroupsDiffer()
    ensures SECURITY != WIREGUARD
  {
    assert |SECURITY| == 24 && |WIREGUARD| == 9;
  }

  /** An update never loses a secret of a group it still has, and changes nothing else that was sent. */
  lemma UpdateKeepsSecrets(next: Settings, prev: Settings)
    ensures
      var r := Kept(next, prev);
      && r.Keys == next.Keys
      && forall g <- next, k ::
           && (k in r[g] <==> k in next[g] || (IsSecret(g, k) && g in prev && k in prev[g]))
           && (k in next[g] ==> r[g][k] == next[g][k])
           && (k in r[g] && k !in next[g] ==> r[g][k] == prev[g][k])
  {
    SecretGroupsDiffer();
  }

  /** A client that reads a profile gets everything but the wifi passphrase, which it never gets. */
  lemma PassphraseNeverRead(s: Settings)
    ensures
      var out := Stripped(s);
      && out.Keys == s.Keys
      && forall g <- s, k ::
           && (k in out[g] <==> k in s[g] && !(g == "802-11-wireless-security" && k == "psk"))
           && (k in out[g] ==> out[g][k] == s[g][k])
  {}

  /** Writing back what a client read changes nothing. */
  lemma ReadThenUpdate(s: Settings)
    ensures Kept(Stripped(s), s) == s
  {
    SecretGroupsDiffer();
    var t := Stripped(s);
    if SECURITY in s && "psk" in s[SECURITY] {
      assert t[SECURITY]["psk" := s[SECURITY]["psk"]] == s[SECURITY];
      assert t[SECURITY := s[SECURITY]] == s;
    } else {
      assert SECURITY in s ==> s[SECURITY] - {"psk"} == s[SECURITY];
      assert t == s;
    }
    assert KeptOne(t, s, SECURITY, "psk") == s;
  }

  /** What is on disk after an update reads back as the updated profile, secrets included. */
  lemma UpdateIsOnDisk(c: Keyfile.Codec, next: Settings, prev: Settings)
    requires Trips.OkSettings(c, next) && Trips.OkSettings(c, prev)
    ensures
      var r := Kept(next, prev);
      Trips.OkSettings(c, r) && Keyfile.Read(c, Keyfile.Print(c, r)).out == Trips.Normalized(c, r)
  {
    var r := Kept(next, prev);
    UpdateKeepsSecrets(next, prev);
    forall g | g in r ensures Trips.OkGroup(g, r[g]) && forall k <- r[g] :: Trips.Kept(c, g, k, r[g][k]) {
      assert Trips.OkGroup(g, next[g]);
      assert g == "" ==> !IsSecret(g, "psk") && !IsSecret(g, "private-key");
      forall k | k in r[g] ensures Trips.Kept(c, g, k, r[g][k]) {
        if k in next[g] { assert Trips.Kept(c, g, k, next[g][k]); } else { assert Trips.Kept(c, g, k, prev[g][k]); }
      }
    }
    Trips.RoundTrip(c, r);
  }
}
