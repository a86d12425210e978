/** Scan results of wpa_supplicant: SSID unescaping, one entry per SSID, strongest first. */
module WpaScan {
  import opened Common

  type Ssid = seq<byte>

  // ---- SSID escapes --------------------------------------------------------------------------------------

  const BACKSLASH: byte := 92

  function HexValue(c: byte): Option<nat> {
    if 48 <= c <= 57 then Some(c - 48)
    else if 97 <= c <= 102 then Some(c - 87)
    else if 65 <= c <= 70 then Some(c - 55)
    else None
  }

  /** The byte that two hexadecimal digits at the start of s stand for. */
  function HexByte(s: seq<byte>): Option<byte> {
    if |s| >= 2 && HexValue(s[0]).Some? && HexValue(s[1]).Some?
    then Some(HexValue(s[0]).value * 16 + HexValue(s[1]).value)
    else None
  }

  function Simple(c: byte): byte {
    if c == 110 then 10 else if c == 114 then 13 else if c == 116 then 9 else if c == 101 then 27 else c
  }

  /** What the text at the start of s stands for, and how much of s that uses up. */
  function Unit(s: seq<byte>): (u: (seq<byte>, nat))
    requires s != []
    ensures |u.0| <= 1 && |u.0| <= u.1 && 1 <= u.1 <= |s|
  {
    if s[0] != BACKSLASH || |s| == 1 then ([s[0]], 1)
    else if s[1] == 120 then
      var v := HexByte(s[2..]);
      if v.Some? then ([v.value], 4) else ([], 2)
    else ([Simple(s[1])], 2)
  }

  function Unescaped(s: seq<byte>): seq<byte>
    decreases |s|
  {
    if s == [] then [] else Unit(s).0 + Unescaped(s[Unit(s).1..])
  }

  method Unescape(s: seq<byte>) returns (out: seq<byte>)
    ensures out == Unescaped(s) && |out| <= |s|
  {
    out := [];
    var i := 0;
    while i < |s|
      invariant 0 <= i <= |s| && |out| <= i && out + Unescaped(s[i..]) == Unescaped(s)
    {
      UnescapedAt(out, s, i);
      var bytes, j := UnescapeAt(s, i);
      out := out + bytes;
      i := j + 1;
    }
  }

  lemma UnescapedAt(out: seq<byte>, s: seq<byte>, i: nat)
    requires i < |s|
    ensures var u := Unit(s[i..]); out + Unescaped(s[i..]) == out + u.0 + Unescaped(s[i + u.1..])
  {
    var u := Unit(s[i..]);
    assert s[i..][u.1..] == s[i + u.1..];
    assert out + (u.0 + Unescaped(s[i + u.1..])) == out + u.0 + Unescaped(s[i + u.1..]);
  }

  /** The loop body of Unescape: what it appends, and its index before the increment. */
  method UnescapeAt(s: seq<byte>, at: nat) returns (bytes: seq<byte>, i: nat)
    requires at < |s|
    ensures bytes == Unit(s[at..]).0 && i + 1 == at + Unit(s[at..]).1
  {
    i := at;
    if s[i] != BACKSLASH || i + 1 == |s| { return [s[i]], i; }
    i := i + 1;
    if s[i] == 110 { return [10], i; }
    if s[i] == 114 { return [13], i; }
    if s[i] == 116 { return [9], i; }
    if s[i] == 101 { return [27], i; }
    if s[i] == 120 {
      assert s[at..][2..] == s[i + 1..];
      if i + 2 < |s| {
        var v := HexByte(s[i + 1..i + 3]);
        assert v == HexByte(s[i + 1..]);
        if v.Some? { return [v.value], i + 2; }
      }
      return [], i;
    }
    return [s[i]], i;
  }

  /** printf_encode of wpa_supplicant, with lower-case hexadecimal digits. */
  function Digit(n: nat): byte
    requires n < 16
  {
    if n < 10 then 48 + n else 87 + n
  }

  function EscapeByte(c: byte): seq<byte> {
    if c == 34 || c == BACKSLASH then [BACKSLASH, c]
    else if c == 27 then [BACKSLASH, 101]
    else if c == 10 then [BACKSLASH, 110]
    else if c == 13 then [BACKSLASH, 114]
    else if c == 9 then [BACKSLASH, 116]
    else if 32 <= c <= 126 then [c]
    else [BACKSLASH, 120, Digit(c / 16), Digit(c % 16)]
  }

  function Escaped(s: seq<byte>): seq<byte> { if s == [] then [] else EscapeByte(s[0]) + Escaped(s[1..]) }

  lemma HexDigits(c: byte)
    ensures HexValue(Digit(c / 16)) == Some(c / 16) && HexValue(Digit(c % 16)) == Some(c % 16)
  {}

  lemma UnescapesByte(c: byte, rest: seq<byte>)
    ensures Unescaped(EscapeByte(c) + rest) == [c] + Unescaped(rest)
  {
    var s := EscapeByte(c) + rest;
    if |EscapeByte(c)| == 4 {
      HexDigits(c);
      assert s[2..][0] == Digit(c / 16) && s[2..][1] == Digit(c % 16);
    }
    assert Unit(s) == ([c], |EscapeByte(c)|);
    assert s[|EscapeByte(c)|..] == rest;
  }

  /** unescape is a left inverse of the supplicant's encoder, for every SSID. */
  lemma {:induction false} UnescapeInverts(ssid: Ssid)
    ensures Unescaped(Escaped(ssid)) == ssid
    decreases |ssid|
  {
    if ssid != [] {
      UnescapesByte(ssid[0], Escaped(ssid[1..]));
      UnescapeInverts(ssid[1..]);
    }
  }

  /** Any number of hexadecimal escapes without digits. */
  predicate HexMarks(s: seq<byte>) {
    s == [] || (|s| >= 2 && s[0] == BACKSLASH && s[1] == 120 && HexMarks(s[2..]))
  }

  /** Exactly those stand for the empty SSID. */
  lemma {:induction false} EmptyExactly(s: seq<byte>)
    ensures Unescaped(s) == [] <==> HexMarks(s)
    decreases |s|
  {
    if s != [] {
      var u := Unit(s);
      EmptyExactly(s[u.1..]);
      if u.0 == [] {
        assert s[0] == BACKSLASH && s[1] == 120 && u.1 == 2;
      } else {
        assert u.0 + Unescaped(s[u.1..]) != [];
      }
    }
  }

  // ---- numbers -------------------------------------------------------------------------------------------------

  const MAX_U64 := 0xffff_ffff_ffff_ffff
  const TWO63 := 0x8000_0000_0000_0000

  /** strconv.ParseUint in base 10: -1 for a syntax error, above the range as soon as a prefix is. */
  function ParseDigits(s: seq<byte>, n: nat): int {
    if s == [] then n
    else if !(48 <= s[0] <= 57) then -1
    else
      var m := n * 10 + (s[0] - 48);
      if m > MAX_U64 then MAX_U64 + 1 else ParseDigits(s[1..], m)
  }

  /** strconv.Atoi with its error dropped: 0 for bad syntax, the nearest bound when out of range. */
  function Atoi(s: seq<byte>): (v: int)
    ensures -TWO63 <= v < TWO63
  {
    var neg, digits := s != [] && s[0] == 45, if s != [] && (s[0] == 45 || s[0] == 43) then s[1..] else s;
    var n := if digits == [] then -1 else ParseDigits(digits, 0);
    if n < 0 then 0
    else if neg then (if n > TWO63 then -TWO63 else -n)
    else if n >= TWO63 then TWO63 - 1 else n
  }

  function Wrap64(x: int): (v: int)
    ensures -TWO63 <= v < TWO63
  {
    (x + TWO63) % (2 * TWO63) - TWO63
  }

  function Min(a: int, b: int): int { if a < b then a else b }

  function Max(a: int, b: int): int { if a < b then b else a }

  /** A percentage; the doubling wraps, and the result is cut to 8 bits. */
  function Strength(signal: int): byte {
    if signal >= 0 then Min(Wrap64(signal * 2), 100) % 256
    else Max(Min(Wrap64(2 * (signal + 100)), 100), 0) % 256
  }

  lemma NoWrap(x: int)
    requires -TWO63 <= x < TWO63
    ensures Wrap64(x) == x
  {}

  /** Where the doubling does not wrap, it is cut to a percentage. */
  lemma StrengthIs(signal: int)
    requires -TWO63 <= 2 * signal < TWO63
    ensures Strength(signal) == if signal >= 0 then Min(2 * signal, 100) else Max(Min(2 * (signal + 100), 100), 0)
  {
    if signal >= 0 { NoWrap(2 * signal); } else { NoWrap(2 * (signal + 100)); }
  }

  /** So there it grows with the signal, on either scale. */
  lemma StrengthGrows(a: int, b: int)
    requires -TWO63 <= 2 * a <= 2 * b < TWO63 && (a < 0 <==> b < 0)
    ensures Strength(a) <= Strength(b) <= 100
  {
    StrengthIs(a);
    StrengthIs(b);
  }

  // ---- lines -----------------------------------------------------------------------------------------------------

  datatype Security = SecOpen | SecWEP | SecPSK | SecEnterprise

  datatype AP<K> = AP(ssid: K, bssid: seq<byte>, frequency: nat, strength: byte, security: Security)

  function IndexByte(s: seq<byte>, c: byte): (i: int)
    ensures -1 <= i < |s| && (i >= 0 ==> s[i] == c)
  {
    if s == [] then -1 else if s[0] == c then 0 else var i := IndexByte(s[1..], c); if i < 0 then -1 else i + 1
  }

  /** strings.SplitN; n == 0 means without limit. */
  function SplitN(s: seq<byte>, sep: byte, n: nat): (parts: seq<seq<byte>>)
    ensures |parts| > 0
    decreases |s|
  {
    var i := IndexByte(s, sep);
    if i < 0 || n == 1 then [s] else [s[..i]] + SplitN(s[i + 1..], sep, if n == 0 then 0 else n - 1)
  }

  predicate Contains(s: seq<byte>, word: seq<byte>) { word <= s || (s != [] && Contains(s[1..], word)) }

  function SecurityOf(flags: seq<byte>): Security {
    if Contains(flags, [69, 65, 80]) then SecEnterprise
    else if Contains(flags, [80, 83, 75]) || Contains(flags, [83, 65, 69]) then SecPSK
    else if Contains(flags, [87, 69, 80]) then SecWEP
    else SecOpen
  }

  /** The access point of one line, none without a fifth field or with an empty one. */
  function Candidate(line: seq<byte>): Option<AP<Ssid>> {
    var f := SplitN(line, 9, 5);
    if |f| < 5 || f[4] == [] then None
    else Some(AP(Unescaped(f[4]), f[0], Atoi(f[1]) % 0x1_0000_0000, Strength(Atoi(f[2])), SecurityOf(f[3])))
  }

  function Candidates(lines: seq<seq<byte>>): seq<AP<Ssid>> {
    if lines == [] then []
    else
      var c := Candidate(lines[|lines| - 1]);
      Candidates(lines[..|lines| - 1]) + (if c.Some? then [c.value] else [])
  }

  // ---- one entry per SSID -----------------------------------------------------------------------------------------

  /** The first of the candidates for ssid with the greatest strength, or -1. */
  function Best<K(==)>(cs: seq<AP<K>>, ssid: K): (b: int)
    ensures -1 <= b < |cs| && (b >= 0 ==> cs[b].ssid == ssid)
    ensures forall k :: 0 <= k < |cs| && cs[k].ssid == ssid ==> b >= 0 && cs[k].strength <= cs[b].strength
    ensures forall k :: 0 <= k < b && cs[k].ssid == ssid ==> cs[k].strength < cs[b].strength
  {
    if cs == [] then -1
    else
      var c, b := cs[|cs| - 1], Best(cs[..|cs| - 1], ssid);
      if c.ssid == ssid && (b < 0 || c.strength > cs[b].strength) then |cs| - 1 else b
  }

  function First<K(==)>(cs: seq<AP<K>>, ssid: K): (i: nat)
    ensures i <= |cs| && (i < |cs| ==> cs[i].ssid == ssid)
    ensures forall k :: 0 <= k < i ==> cs[k].ssid != ssid
  {
    if cs == [] then 0
    else
      var i := First(cs[..|cs| - 1], ssid);
      if i < |cs| - 1 || cs[|cs| - 1].ssid == ssid then i else |cs|
  }

  /** Each entry of out is the best candidate of its SSID. */
  predicate AllBest<K(==)>(out: seq<AP<K>>, cs: seq<AP<K>>) {
    forall i :: 0 <= i < |out| ==> Best(cs, out[i].ssid) >= 0 && cs[Best(cs, out[i].ssid)] == out[i]
  }

  /** Each SSID has an entry. */
  predicate Covers<K(==)>(out: seq<AP<K>>, cs: seq<AP<K>>) {
    forall k :: 0 <= k < |cs| ==> First(out, cs[k].ssid) < |out|
  }

  predicate Distinct<K(==)>(out: seq<AP<K>>) { forall i, j :: 0 <= i < j < |out| ==> out[i].ssid != out[j].ssid }

  /** SSIDs stand in the order in which they appear among the candidates. */
  predicate InOrder<K(==)>(out: seq<AP<K>>, cs: seq<AP<K>>) {
    forall i, j :: 0 <= i < j < |out| ==> First(cs, out[i].ssid) < First(cs, out[j].ssid)
  }

  function MergeOne<K(==)>(out: seq<AP<K>>, ap: AP<K>): seq<AP<K>> {
    var i := First(out, ap.ssid);
    if i == |out| then out + [ap] else if ap.strength > out[i].strength then out[i := ap] else out
  }

  function Merged<K(==)>(cs: seq<AP<K>>): seq<AP<K>> {
    if cs == [] then [] else MergeOne(Merged(cs[..|cs| - 1]), cs[|cs| - 1])
  }

  lemma FirstMore<K>(cs: seq<AP<K>>, c: AP<K>, ssid: K)
    ensures First(cs + [c], ssid) == if First(cs, ssid) < |cs| || c.ssid == ssid then First(cs, ssid) else |cs| + 1
  {
    assert (cs + [c])[..|cs|] == cs;
  }

  lemma BestMore<K>(cs: seq<AP<K>>, c: AP<K>, ssid: K)
    ensures
      var b := Best(cs, ssid);
      Best(cs + [c], ssid) == if c.ssid == ssid && (b < 0 || c.strength > cs[b].strength) then |cs| else b
  {
    assert (cs + [c])[..|cs|] == cs;
  }

  lemma SsidsKept<K>(out: seq<AP<K>>, c: AP<K>)
    ensures
      var r, n := MergeOne(out, c), First(out, c.ssid);
      && |r| == (if n == |out| then n + 1 else |out|) && r[n].ssid == c.ssid
      && forall i :: 0 <= i < |out| ==> r[i].ssid == out[i].ssid && (i != n ==> r[i] == out[i])
  {}

  lemma AllBestMore<K>(out: seq<AP<K>>, cs: seq<AP<K>>, c: AP<K>)
    requires AllBest(out, cs) && Covers(out, cs) && Distinct(out)
    ensures AllBest(MergeOne(out, c), cs + [c])
  {
    var r, n := MergeOne(out, c), First(out, c.ssid);
    SsidsKept(out, c);
    forall i | 0 <= i < |r| ensures Best(cs + [c], r[i].ssid) >= 0 && (cs + [c])[Best(cs + [c], r[i].ssid)] == r[i] {
      BestMore(cs, c, r[i].ssid);
    }
  }

  lemma CoversMore<K>(out: seq<AP<K>>, cs: seq<AP<K>>, c: AP<K>)
    requires Covers(out, cs)
    ensures Covers(MergeOne(out, c), cs + [c])
  {
    var r, n := MergeOne(out, c), First(out, c.ssid);
    SsidsKept(out, c);
    forall k | 0 <= k < |cs| + 1 ensures First(r, (cs + [c])[k].ssid) < |r| {
      if k < |cs| {
        var i := First(out, cs[k].ssid);
        assert r[i].ssid == cs[k].ssid;
      } else {
        assert r[n].ssid == c.ssid;
      }
    }
  }

  lemma InOrderMore<K>(out: seq<AP<K>>, cs: seq<AP<K>>, c: AP<K>)
    requires InOrder(out, cs) && AllBest(out, cs) && Covers(out, cs)
    ensures InOrder(MergeOne(out, c), cs + [c])
  {
    var r := MergeOne(out, c);
    SsidsKept(out, c);
    forall i, j | 0 <= i < j < |r| ensures First(cs + [c], r[i].ssid) < First(cs + [c], r[j].ssid) {
      FirstMore(cs, c, r[i].ssid);
      FirstMore(cs, c, r[j].ssid);
    }
  }

  lemma InOrderDistinct<K>(out: seq<AP<K>>, cs: seq<AP<K>>)
    requires InOrder(out, cs)
    ensures Distinct(out)
  {
    forall i, j | 0 <= i < j < |out| ensures out[i].ssid != out[j].ssid {
      assert First(cs, out[i].ssid) < First(cs, out[j].ssid);
    }
  }

  /** Exactly one entry per SSID, the first of the strongest, in order of first appearance. */
  predicate OneEach<K(==)>(out: seq<AP<K>>, cs: seq<AP<K>>) {
    AllBest(out, cs) && Covers(out, cs) && InOrder(out, cs) && Distinct(out)
  }

  lemma OneEachMore<K>(out: seq<AP<K>>, cs: seq<AP<K>>, c: AP<K>)
    requires OneEach(out, cs)
    ensures OneEach(MergeOne(out, c), cs + [c])
  {
    AllBestMore(out, cs, c);
    CoversMore(out, cs, c);
    InOrderMore(out, cs, c);
    InOrderDistinct(MergeOne(out, c), cs + [c]);
  }

  lemma MergedMore<K>(cs: seq<AP<K>>, c: AP<K>)
    ensures Merged(cs + [c]) == MergeOne(Merged(cs), c)
  {
    assert (cs + [c])[..|cs|] == cs;
  }

  lemma MergedOneMore<K>(front: seq<AP<K>>, c: AP<K>)
    requires OneEach(Merged(front), front)
    ensures OneEach(Merged(front + [c]), front + [c])
  {
    OneEachMore(Merged(front), front, c);
    MergedMore(front, c);
  }

  lemma {:induction false} MergedIsBest<K>(cs: seq<AP<K>>)
    ensures OneEach(Merged(cs), cs)
    decreases |cs|
  {
    if cs != [] {
      var front, c := cs[..|cs| - 1], cs[|cs| - 1];
      assert front + [c] == cs;
      MergedIsBest(front);
      MergedOneMore(front, c);
    }
  }

  // ---- strongest first ------------------------------------------------------------------------------------

  /** x goes behind everything at least as strong. */
  function RankInto<K>(xs: seq<AP<K>>, x: AP<K>): seq<AP<K>> {
    if xs == [] || xs[|xs| - 1].strength >= x.strength then xs + [x] else RankInto(xs[..|xs| - 1], x) + [xs[|xs| - 1]]
  }

  function Ranked<K>(xs: seq<AP<K>>): seq<AP<K>> {
    if xs == [] then [] else RankInto(Ranked(xs[..|xs| - 1]), xs[|xs| - 1])
  }

  /** The sort loop, on the array it works in. */
  method Rank<K>(a: array<AP<K>>)
    modifies a
    ensures a[..] == Ranked(old(a[..]))
  {
    ghost var was := a[..];
    for i := 0 to a.Length
      invariant a[..i] == Ranked(was[..i]) && a[i..] == was[i..]
    {
      assert was[..i + 1][..i] == was[..i];
      assert a[i] == was[i];
      SinkOne(a, i);
      assert a[i + 1..] == was[i + 1..];
    }
    assert a[..a.Length] == a[..] && was[..a.Length] == was;
  }

  /** The inner loop: element i moves left past everything weaker. */
  method SinkOne<K>(a: array<AP<K>>, i: nat)
    requires i < a.Length
    modifies a
    ensures a[..i + 1] == RankInto(old(a[..i]), old(a[i])) && a[i + 1..] == old(a[i + 1..])
  {
    ghost var front, x, back := a[..i], a[i], a[i + 1..];
    var j := i;
    assert front[..i] == front && front[i..] == [];
    assert a[..] == Inserted(front, x, i) + back;
    while j > 0 && a[j].strength > a[j - 1].strength
      invariant 0 <= j <= i && a[..] == Inserted(front, x, j) + back
      invariant RankInto(front, x) == RankInto(front[..j], x) + front[j..]
    {
      InsertedAt(a[..], front, x, j, back);
      RankPast(front, x, j);
      Swap(a, j);
      InsertedLeft(front, x, j, back);
      j := j - 1;
    }
    InsertedAt(a[..], front, x, j, back);
    assert RankInto(front[..j], x) == front[..j] + [x];
    assert a[..][..i + 1] == Inserted(front, x, j) && a[..][i + 1..] == back;
  }

  method Swap<K>(a: array<AP<K>>, j: nat)
    requires 0 < j < a.Length
    modifies a
    ensures a[..] == old(a[..])[j := old(a[j - 1])][j - 1 := old(a[j])]
  {
    a[j], a[j - 1] := a[j - 1], a[j];
  }

  ghost function Inserted<K>(front: seq<AP<K>>, x: AP<K>, j: nat): seq<AP<K>>
    requires j <= |front|
  {
    front[..j] + [x] + front[j..]
  }

  lemma InsertedAt<K>(now: seq<AP<K>>, front: seq<AP<K>>, x: AP<K>, j: nat, back: seq<AP<K>>)
    requires j <= |front| && now == Inserted(front, x, j) + back
    ensures |now| == |front| + 1 + |back| && now[j] == x && (j > 0 ==> now[j - 1] == front[j - 1])
  {}

  lemma InsertedLeft<K>(front: seq<AP<K>>, x: AP<K>, j: nat, back: seq<AP<K>>)
    requires 0 < j <= |front|
    ensures Inserted(front, x, j - 1) + back == (Inserted(front, x, j) + back)[j := front[j - 1]][j - 1 := x]
  {}

  lemma RankPast<K>(front: seq<AP<K>>, x: AP<K>, j: nat)
    requires 0 < j <= |front| && front[j - 1].strength < x.strength
    ensures RankInto(front[..j], x) + front[j..] == RankInto(front[..j - 1], x) + front[j - 1..]
  {
    assert front[..j][..j - 1] == front[..j - 1];
    assert [front[j - 1]] + front[j..] == front[j - 1..];
  }

  predicate StrongestFirst<K>(xs: seq<AP<K>>) { forall i, j :: 0 <= i < j < |xs| ==> xs[i].strength >= xs[j].strength }

  function WithStrength<K>(xs: seq<AP<K>>, v: byte): seq<AP<K>> {
    if xs == [] then []
    else WithStrength(xs[..|xs| - 1], v) + (if xs[|xs| - 1].strength == v then [xs[|xs| - 1]] else [])
  }

  lemma {:induction false} RankIntoHolds<K>(xs: seq<AP<K>>, x: AP<K>)
    ensures multiset(RankInto(xs, x)) == multiset(xs) + multiset{x}
    ensures forall y :: y in RankInto(xs, x) <==> y in xs || y == x
    decreases |xs|
  {
    var n := |xs| - 1;
    if xs != [] {
      assert xs == xs[..n] + [xs[n]];
      if xs[n].strength < x.strength { RankIntoHolds(xs[..n], x); }
    }
  }

  lemma {:induction false} RankIntoAtLeast<K>(xs: seq<AP<K>>, x: AP<K>, low: byte)
    requires x.strength >= low && forall i :: 0 <= i < |xs| ==> xs[i].strength >= low
    ensures forall i :: 0 <= i < |RankInto(xs, x)| ==> RankInto(xs, x)[i].strength >= low
    decreases |xs|
  {
    if xs != [] {
      RankIntoAtLeast(xs[..|xs| - 1], x, low);
    }
  }

  lemma {:induction false} RankIntoSorts<K>(xs: seq<AP<K>>, x: AP<K>)
    requires StrongestFirst(xs)
    ensures StrongestFirst(RankInto(xs, x))
    decreases |xs|
  {
    var n := |xs| - 1;
    if xs != [] && xs[n].strength < x.strength {
      RankIntoSorts(xs[..n], x);
      RankIntoAtLeast(xs[..n], x, xs[n].strength);
    }
  }

  lemma WithStrengthMore<K>(xs: seq<AP<K>>, x: AP<K>, v: byte)
    ensures WithStrength(xs + [x], v) == WithStrength(xs, v) + (if x.strength == v then [x] else [])
  {
    assert (xs + [x])[..|xs|] == xs;
  }

  lemma {:induction false} RankIntoStable<K>(xs: seq<AP<K>>, x: AP<K>, v: byte)
    ensures WithStrength(RankInto(xs, x), v) == WithStrength(xs, v) + (if x.strength == v then [x] else [])
    decreases |xs|
  {
    if xs == [] || xs[|xs| - 1].strength >= x.strength {
      WithStrengthMore(xs, x, v);
    } else {
      var front, last := xs[..|xs| - 1], xs[|xs| - 1];
      RankIntoStable(front, x, v);
      WithStrengthMore(RankInto(front, x), last, v);
    }
  }

  lemma {:induction false} RankedHolds<K>(xs: seq<AP<K>>)
    ensures multiset(Ranked(xs)) == multiset(xs)
    decreases |xs|
  {
    if xs != [] {
      var n := |xs| - 1;
      RankedHolds(xs[..n]);
      RankIntoHolds(Ranked(xs[..n]), xs[n]);
      assert xs == xs[..n] + [xs[n]];
    }
  }

  lemma {:induction false} RankedSorts<K>(xs: seq<AP<K>>)
    ensures StrongestFirst(Ranked(xs))
    decreases |xs|
  {
    if xs != [] {
      RankedSorts(xs[..|xs| - 1]);
      RankIntoSorts(Ranked(xs[..|xs| - 1]), xs[|xs| - 1]);
    }
  }

  lemma {:induction false} RankedKeepsTies<K>(xs: seq<AP<K>>, v: byte)
    ensures WithStrength(Ranked(xs), v) == WithStrength(xs, v)
    decreases |xs|
  {
    if xs != [] {
      RankedKeepsTies(xs[..|xs| - 1], v);
      RankIntoStable(Ranked(xs[..|xs| - 1]), xs[|xs| - 1], v);
    }
  }

  /** The ranking is a permutation, strongest first, that keeps the order of equals. */
  lemma RankedIsStable<K>(xs: seq<AP<K>>, v: byte)
    ensures multiset(Ranked(xs)) == multiset(xs) && StrongestFirst(Ranked(xs))
    ensures WithStrength(Ranked(xs), v) == WithStrength(xs, v)
  {
    RankedHolds(xs);
    RankedSorts(xs);
    RankedKeepsTies(xs, v);
  }

  lemma {:induction false} RankIntoDistinct<K>(xs: seq<AP<K>>, x: AP<K>)
    requires Distinct(xs) && forall y <- xs :: y.ssid != x.ssid
    ensures Distinct(RankInto(xs, x))
    decreases |xs|
  {
    var n := |xs| - 1;
    if xs != [] && xs[n].strength < x.strength {
      RankIntoDistinct(xs[..n], x);
      RankIntoHolds(xs[..n], x);
      var r := RankInto(xs[..n], x);
      forall k | 0 <= k < |r| ensures r[k].ssid != xs[n].ssid {
        assert r[k] in r;
      }
    }
  }

  lemma {:induction false} RankedDistinct<K>(xs: seq<AP<K>>)
    requires Distinct(xs)
    ensures Distinct(Ranked(xs)) && forall y :: y in Ranked(xs) <==> y in xs
    decreases |xs|
  {
    if xs != [] {
      var n := |xs| - 1;
      RankedDistinct(xs[..n]);
      RankIntoDistinct(Ranked(xs[..n]), xs[n]);
      RankIntoHolds(Ranked(xs[..n]), xs[n]);
      assert xs == xs[..n] + [xs[n]];
    }
  }

  // ---- the whole scan -------------------------------------------------------------------------------------

  /** seen maps every SSID of out to its place. */
  predicate Indexes<K(==)>(seen: map<K, nat>, out: seq<AP<K>>) {
    && (forall k <- seen :: First(out, k) < |out| && seen[k] == First(out, k))
    && (forall i :: 0 <= i < |out| ==> out[i].ssid in seen)
  }

  /** The end of the loop body of ParseScanResults. */
  method MergeIn<K(==)>(before: seq<AP<K>>, was: map<K, nat>, ap: AP<K>) returns (out: seq<AP<K>>, seen: map<K, nat>)
    requires Indexes(was, before)
    ensures out == MergeOne(before, ap) && Indexes(seen, out)
  {
    out, seen := before, was;
    if ap.ssid in seen {
      var i := seen[ap.ssid];
      if ap.strength > out[i].strength { out := out[i := ap]; }
      StillIndexes(was, before, ap);
    } else {
      seen := seen[ap.ssid := |out|];
      out := out + [ap];
      IndexesOneMore(was, before, ap);
    }
  }

  lemma StillIndexes<K>(was: map<K, nat>, before: seq<AP<K>>, ap: AP<K>)
    requires Indexes(was, before) && ap.ssid in was
    ensures Indexes(was, MergeOne(before, ap))
  {
    var out := MergeOne(before, ap);
    SsidsKept(before, ap);
    forall k | k in was ensures First(out, k) == First(before, k) {
      SameSsids(before, out, k);
    }
  }

  lemma IndexesOneMore<K>(was: map<K, nat>, before: seq<AP<K>>, ap: AP<K>)
    requires Indexes(was, before) && ap.ssid !in was
    ensures MergeOne(before, ap) == before + [ap] && Indexes(was[ap.ssid := |before|], before + [ap])
  {
    FirstMore(before, ap, ap.ssid);
    forall k | k in was ensures First(before + [ap], k) == First(before, k) {
      FirstMore(before, ap, k);
    }
  }

  lemma {:induction false} SameSsids<K>(a: seq<AP<K>>, b: seq<AP<K>>, k: K)
    requires |a| == |b| && forall i :: 0 <= i < |a| ==> a[i].ssid == b[i].ssid
    ensures First(a, k) == First(b, k)
    decreases |a|
  {
    if a != [] {
      SameSsids(a[..|a| - 1], b[..|b| - 1], k);
    }
  }

  function Scan(text: seq<byte>): seq<AP<Ssid>> { Ranked(Merged(Candidates(SplitN(text, 10, 0)[1..]))) }

  method ParseScanResults(text: seq<byte>) returns (nets: seq<AP<Ssid>>)
    ensures nets == Scan(text)
  {
    var out := MergeLines(SplitN(text, 10, 0)[1..]);
    nets := SortNets(out);
  }

  /** The first loop of ParseScanResults. */
  method MergeLines(lines: seq<seq<byte>>) returns (out: seq<AP<Ssid>>)
    ensures out == Merged(Candidates(lines))
  {
    out := [];
    var seen: map<Ssid, nat> := map[];
    for i := 0 to |lines|
      invariant out == Merged(Candidates(lines[..i])) && Indexes(seen, out)
    {
      assert lines[..i + 1][..i] == lines[..i];
      var ap := Candidate(lines[i]);
      if ap.None? {
        assert Candidates(lines[..i]) + [] == Candidates(lines[..i]);
        continue;
      }
      MergedMore(Candidates(lines[..i]), ap.value);
      out, seen := MergeIn(out, seen, ap.value);
    }
    assert lines[..|lines|] == lines;
  }

  /** The second loop of ParseScanResults. */
  method SortNets<K>(out: seq<AP<K>>) returns (nets: seq<AP<K>>)
    ensures nets == Ranked(out)
  {
    if |out| == 0 { return out; }
    var a := new AP<K>[|out|](i requires 0 <= i < |out| => out[i]);
    assert a[..] == out;
    Rank(a);
    nets := a[..];
  }

  lemma EachIsBest<K>(out: seq<AP<K>>, r: seq<AP<K>>, cs: seq<AP<K>>)
    requires AllBest(out, cs) && forall y :: y in r <==> y in out
    ensures forall ap <- r :: Best(cs, ap.ssid) >= 0 && cs[Best(cs, ap.ssid)] == ap
  {
    forall ap | ap in r ensures Best(cs, ap.ssid) >= 0 && cs[Best(cs, ap.ssid)] == ap {
      var i :| 0 <= i < |out| && out[i] == ap;
    }
  }

  lemma EachIsThere<K>(out: seq<AP<K>>, r: seq<AP<K>>, cs: seq<AP<K>>)
    requires Covers(out, cs) && forall y :: y in r <==> y in out
    ensures forall c <- cs :: exists ap <- r :: ap.ssid == c.ssid
  {
    forall c | c in cs ensures exists ap <- r :: ap.ssid == c.ssid {
      var k :| 0 <= k < |cs| && cs[k] == c;
      assert out[First(out, c.ssid)] in r;
    }
  }

  /**
    For every text: one entry per decoded SSID, each the first line with the greatest strength for
    its SSID, the strongest first; equally strong networks keep the order in which they appeared.
   */
  lemma ScanIsRight(text: seq<byte>, v: byte)
    ensures
      var cs, r := Candidates(SplitN(text, 10, 0)[1..]), Scan(text);
      && Distinct(r) && StrongestFirst(r)
      && (forall ap <- r :: Best(cs, ap.ssid) >= 0 && cs[Best(cs, ap.ssid)] == ap)
      && (forall c <- cs :: exists ap <- r :: ap.ssid == c.ssid)
      && WithStrength(r, v) == WithStrength(Merged(cs), v) && InOrder(Merged(cs), cs)
  {
    var cs := Candidates(SplitN(text, 10, 0)[1..]);
    var m := Merged(cs);
    MergedIsBest(cs);
    RankedIsStable(m, v);
    RankedDistinct(m);
    EachIsBest(m, Ranked(m), cs);
    EachIsThere(m, Ranked(m), cs);
  }

  lemma {:induction false} CandidatesAre(lines: seq<seq<byte>>)
    ensures forall line <- lines :: Candidate(line).Some? ==> Candidate(line).value in Candidates(lines)
    ensures forall c <- Candidates(lines) :: exists line <- lines :: Candidate(line) == Some(c)
    decreases |lines|
  {
    if lines != [] {
      var n := |lines| - 1;
      CandidatesAre(lines[..n]);
      assert lines == lines[..n] + [lines[n]];
    }
  }

  /** The line has a fifth field, which is not empty but decodes to nothing. */
  predicate NamesNothing(line: seq<byte>) {
    var f := SplitN(line, 9, 5);
    |f| >= 5 && f[4] != [] && HexMarks(f[4])
  }

  lemma NamesNothingIs(line: seq<byte>)
    ensures NamesNothing(line) <==> Candidate(line).Some? && Candidate(line).value.ssid == []
  {
    var f := SplitN(line, 9, 5);
    if |f| >= 5 { EmptyExactly(f[4]); }
  }

  lemma EmptyAmong(lines: seq<seq<byte>>)
    ensures (exists c <- Candidates(lines) :: c.ssid == []) <==> exists line <- lines :: NamesNothing(line)
  {
    CandidatesAre(lines);
    if c :| c in Candidates(lines) && c.ssid == [] {
      var line :| line in lines && Candidate(line) == Some(c);
      NamesNothingIs(line);
    }
    if line :| line in lines && NamesNothing(line) {
      NamesNothingIs(line);
      assert Candidate(line).value in Candidates(lines);
    }
  }

  /** A scan lists the empty SSID exactly if some line spells it in that way. */
  lemma EmptyListedExactly(text: seq<byte>)
    ensures
      (exists ap <- Scan(text) :: ap.ssid == [])
      <==> exists line <- SplitN(text, 10, 0)[1..] :: NamesNothing(line)
  {
    var lines := SplitN(text, 10, 0)[1..];
    ScanIsRight(text, 0);
    EmptyAmong(lines);
    ListedIsAmong(Scan(text), Candidates(lines), []);
  }

  lemma ListedIsAmong<K>(r: seq<AP<K>>, cs: seq<AP<K>>, ssid: K)
    requires forall ap <- r :: Best(cs, ap.ssid) >= 0
    requires forall c <- cs :: exists ap <- r :: ap.ssid == c.ssid
    ensures (exists ap <- r :: ap.ssid == ssid) <==> exists c <- cs :: c.ssid == ssid
  {
    if ap :| ap in r && ap.ssid == ssid {
      assert cs[Best(cs, ap.ssid)] in cs;
    }
  }
}
