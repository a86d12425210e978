/** What the text of a scan says: its fields, its numbers, its flags, and the networks it lists. */
module WpaLines {
  import opened Common
  import opened Text
  import opened WpaScan

  const TAB: byte := 9
  const NEWLINE: byte := 10

  // ---- fields ---------------------------------------------------------------------------------------------

  lemma {:induction false} IndexByteIs(s: seq<byte>, c: byte)
    ensures IndexByte(s, c) < 0 <==> c !in s
    ensures IndexByte(s, c) >= 0 ==> c !in s[..IndexByte(s, c)]
    decreases |s|
  {
    if s != [] && s[0] != c {
      IndexByteIs(s[1..], c);
      var i := IndexByte(s[1..], c);
      if i >= 0 { assert s[..i + 1] == [s[0]] + s[1..][..i]; }
    }
  }

  lemma IndexByteAt(a: seq<byte>, c: byte, b: seq<byte>)
    requires c !in a
    ensures IndexByte(a + [c] + b, c) == |a|
  {
    var s := a + [c] + b;
    assert s[|a|] == c && s[..|a|] == a;
    assert forall j :: |a| < j <= |s| ==> s[..j][|a|] == c;
    IndexByteIs(s, c);
  }

  /** Splitting takes the field before the first separator off. */
  lemma SplitFirst(a: seq<byte>, c: byte, b: seq<byte>, n: nat)
    requires c !in a && n != 1
    ensures SplitN(a + [c] + b, c, n) == [a] + SplitN(b, c, if n == 0 then 0 else n - 1)
  {
    IndexByteAt(a, c, b);
    var s := a + [c] + b;
    assert s[..|a|] == a && s[|a| + 1..] == b;
  }

  lemma SplitLast(a: seq<byte>, c: byte, n: nat)
    requires c !in a || n == 1
    ensures SplitN(a, c, n) == [a]
  {
    IndexByteIs(a, c);
  }

  /** A line of five fields; the last may itself hold tabs. */
  function TabLine(b: seq<byte>, fr: seq<byte>, sg: seq<byte>, fl: seq<byte>, raw: seq<byte>): seq<byte> {
    b + [TAB] + (fr + [TAB] + (sg + [TAB] + (fl + [TAB] + raw)))
  }

  predicate NoTab(s: seq<byte>) { TAB !in s }

  predicate IsFive(line: seq<byte>, b: seq<byte>, fr: seq<byte>, sg: seq<byte>, fl: seq<byte>, raw: seq<byte>) {
    NoTab(b) && NoTab(fr) && NoTab(sg) && NoTab(fl) && line == TabLine(b, fr, sg, fl, raw)
  }

  lemma SplitsInFive(b: seq<byte>, fr: seq<byte>, sg: seq<byte>, fl: seq<byte>, raw: seq<byte>)
    requires NoTab(b) && NoTab(fr) && NoTab(sg) && NoTab(fl)
    ensures SplitN(TabLine(b, fr, sg, fl, raw), TAB, 5) == [b, fr, sg, fl, raw]
  {
    SplitFirst(b, TAB, fr + [TAB] + (sg + [TAB] + (fl + [TAB] + raw)), 5);
    SplitFirst(fr, TAB, sg + [TAB] + (fl + [TAB] + raw), 4);
    SplitFirst(sg, TAB, fl + [TAB] + raw, 3);
    SplitFirst(fl, TAB, raw, 2);
    SplitLast(raw, TAB, 1);
    Chain(b, fr, sg, fl, raw);
  }

  lemma Chain<T>(a: T, b: T, c: T, d: T, e: T)
    ensures [a] + ([b] + ([c] + ([d] + [e]))) == [a, b, c, d, e]
  {}

  /** Each field is used for what it is: address, frequency, signal, flags and the encoded SSID, in this order. */
  lemma LineReads(b: seq<byte>, fr: seq<byte>, sg: seq<byte>, fl: seq<byte>, raw: seq<byte>)
    requires NoTab(b) && NoTab(fr) && NoTab(sg) && NoTab(fl)
    ensures
      Candidate(TabLine(b, fr, sg, fl, raw))
      == if raw == [] then None
         else Some(AP(Unescaped(raw), b, Atoi(fr) % 0x1_0000_0000, Strength(Atoi(sg)), SecurityOf(fl)))
  {
    SplitsInFive(b, fr, sg, fl, raw);
  }

  /** A line names an access point exactly if it has five fields, the last of which is not empty. */
  lemma CandidateExactly(line: seq<byte>)
    ensures Candidate(line).Some? <==> exists b, fr, sg, fl, raw :: IsFive(line, b, fr, sg, fl, raw) && raw != []
  {
    if Candidate(line).Some? {
      var b, fr, sg, fl, raw := FiveFields(line);
    }
    forall b, fr, sg, fl, raw | IsFive(line, b, fr, sg, fl, raw) && raw != [] ensures Candidate(line).Some? {
      LineReads(b, fr, sg, fl, raw);
    }
  }

  lemma FiveFields(line: seq<byte>)
    returns (b: seq<byte>, fr: seq<byte>, sg: seq<byte>, fl: seq<byte>, raw: seq<byte>)
    requires |SplitN(line, TAB, 5)| >= 5
    ensures IsFive(line, b, fr, sg, fl, raw) && raw == SplitN(line, TAB, 5)[4]
  {
    var f := SplitN(line, TAB, 5);
    Rejoined(line, 5);
    b, fr, sg, fl, raw := f[0], f[1], f[2], f[3], f[4];
    Chain(b, fr, sg, fl, raw);
    TabbedFive(b, fr, sg, fl, raw);
    assert f == [b, fr, sg, fl, raw];
  }

  /** Fields with tabs between them. */
  function Tabbed(f: seq<seq<byte>>): seq<byte>
    requires f != []
  {
    if |f| == 1 then f[0] else f[0] + [TAB] + Tabbed(f[1..])
  }

  lemma TabbedFive(b: seq<byte>, fr: seq<byte>, sg: seq<byte>, fl: seq<byte>, raw: seq<byte>)
    ensures Tabbed([b, fr, sg, fl, raw]) == TabLine(b, fr, sg, fl, raw)
  {
    var f := [b, fr, sg, fl, raw];
    assert f[1..] == [fr, sg, fl, raw] && f[1..][1..] == [sg, fl, raw] && f[1..][1..][1..] == [fl, raw];
    assert [fl, raw][1..] == [raw];
    assert Tabbed([fl, raw]) == fl + [TAB] + raw;
    assert Tabbed([sg, fl, raw]) == sg + [TAB] + Tabbed([fl, raw]);
    assert Tabbed([fr, sg, fl, raw]) == fr + [TAB] + Tabbed([sg, fl, raw]);
  }

  lemma CutAt<T>(s: seq<T>, i: nat)
    requires i < |s|
    ensures s == s[..i] + [s[i]] + s[i + 1..]
  {}

  lemma TabbedMore(x: seq<byte>, g: seq<seq<byte>>)
    requires g != []
    ensures Tabbed([x] + g) == x + [TAB] + Tabbed(g) && forall k :: 0 <= k < |g| ==> ([x] + g)[k + 1] == g[k]
  {
    assert ([x] + g)[1..] == g;
  }

  /** Splitting cuts at the first tabs, and leaves out nothing else. */
  lemma {:induction false} Rejoined(s: seq<byte>, n: nat)
    requires n > 0
    ensures var f := SplitN(s, TAB, n); Tabbed(f) == s && |f| <= n && forall k :: 0 <= k < |f| - 1 ==> NoTab(f[k])
    decreases n
  {
    var i := IndexByte(s, TAB);
    IndexByteIs(s, TAB);
    if i >= 0 && n > 1 {
      Rejoined(s[i + 1..], n - 1);
      var f, g := SplitN(s, TAB, n), SplitN(s[i + 1..], TAB, n - 1);
      CutAt(s, i);
      TabbedMore(s[..i], g);
    }
  }

  // ---- numbers ----------------------------------------------------------------------------------------------

  function Decimal(n: nat): (s: seq<byte>)
    ensures s != []
  {
    if n < 10 then [48 + n] else Decimal(n / 10) + [48 + n % 10]
  }

  function Printed(n: int): seq<byte> { if n < 0 then [45] + Decimal(-n) else Decimal(n) }

  lemma {:induction false} DecimalDigits(n: nat)
    ensures forall c <- Decimal(n) :: 48 <= c <= 57
    decreases n
  {
    if n >= 10 { DecimalDigits(n / 10); }
  }

  lemma {:induction false} ParseMore(s: seq<byte>, d: byte, acc: nat)
    requires 48 <= d <= 57 && 0 <= ParseDigits(s, acc) <= MAX_U64
    ensures
      var m := ParseDigits(s, acc) * 10 + (d - 48);
      ParseDigits(s + [d], acc) == if m > MAX_U64 then MAX_U64 + 1 else m
    decreases |s|
  {
    if s == [] {
      assert s + [d] == [d] && [d][1..] == [];
    } else {
      assert (s + [d])[1..] == s[1..] + [d];
      ParseMore(s[1..], d, acc * 10 + (s[0] - 48));
    }
  }

  lemma {:induction false} ParsesDecimal(n: nat)
    requires n <= MAX_U64
    ensures ParseDigits(Decimal(n), 0) == n
    decreases n
  {
    if n < 10 {
      assert [48 + n][1..] == [];
    } else {
      ParsesDecimal(n / 10);
      ParseMore(Decimal(n / 10), 48 + n % 10, 0);
    }
  }

  lemma {:induction false} ParseStays(s: seq<byte>, d: byte, acc: nat)
    requires 48 <= d <= 57 && ParseDigits(s, acc) == MAX_U64 + 1 && acc <= MAX_U64
    ensures ParseDigits(s + [d], acc) == MAX_U64 + 1
    decreases |s|
  {
    var m := acc * 10 + (s[0] - 48);
    assert (s + [d])[1..] == s[1..] + [d];
    if m <= MAX_U64 { ParseStays(s[1..], d, m); }
  }

  lemma {:induction false} ParsesAny(n: nat)
    ensures ParseDigits(Decimal(n), 0) == if n > MAX_U64 then MAX_U64 + 1 else n
    decreases n
  {
    if n <= MAX_U64 {
      ParsesDecimal(n);
    } else {
      ParsesAny(n / 10);
      if n / 10 > MAX_U64 {
        ParseStays(Decimal(n / 10), 48 + n % 10, 0);
      } else {
        ParseMore(Decimal(n / 10), 48 + n % 10, 0);
      }
    }
  }

  /** The nearest number of 64 bits. */
  function Nearest(n: int): int { if n < -TWO63 then -TWO63 else if n >= TWO63 then TWO63 - 1 else n }

  /** A printed number is read back, also a negative one, and one that is out of range as the nearest bound. */
  lemma AtoiReads(n: int)
    ensures Atoi(Printed(n)) == Nearest(n)
  {
    ParsesAny(if n < 0 then -n else n);
    if n < 0 {
      assert Printed(n)[1..] == Decimal(-n);
    } else {
      DecimalDigits(n);
      assert Decimal(n)[0] in Decimal(n);
    }
  }

  /** A field that is not a number counts as zero. */
  lemma AtoiOfText(s: seq<byte>, t: seq<byte>)
    requires t != [] && forall c <- t :: !(48 <= c <= 57)
    ensures Atoi(t) == 0 && Atoi([]) == 0
  {
    if |t| > 1 { assert t[1] in t; }
    assert t[0] in t;
  }

  lemma PrintedHasNone(n: int)
    ensures NoTab(Printed(n)) && NEWLINE !in Printed(n)
  {
    DecimalDigits(if n < 0 then -n else n);
  }

  // ---- flags --------------------------------------------------------------------------------------------------

  ghost predicate Occurs(word: seq<byte>, s: seq<byte>) { exists a, b :: s == a + word + b }

  /** Where a word that occurs in s can stand. */
  lemma OccursSteps(s: seq<byte>, word: seq<byte>)
    ensures Occurs(word, s) <==> word <= s || (s != [] && Occurs(word, s[1..]))
  {
    if word <= s { AtFront(s, word); }
    if s != [] && Occurs(word, s[1..]) {
      var a, b :| s[1..] == a + word + b;
      OneLater(s, a, word, b);
    }
    if Occurs(word, s) {
      var a, b :| s == a + word + b;
      OneEarlier(s, a, word, b);
    }
  }

  lemma AtFront<T>(s: seq<T>, w: seq<T>)
    requires w <= s
    ensures s == [] + w + s[|w|..]
  {}

  lemma OneLater<T>(s: seq<T>, a: seq<T>, w: seq<T>, b: seq<T>)
    requires s != [] && s[1..] == a + w + b
    ensures s == [s[0]] + a + w + b
  {}

  lemma OneEarlier<T>(s: seq<T>, a: seq<T>, w: seq<T>, b: seq<T>)
    requires s == a + w + b
    ensures if a == [] then w <= s else s[1..] == a[1..] + w + b
  {}

  lemma {:induction false} ContainsExactly(s: seq<byte>, word: seq<byte>)
    ensures Contains(s, word) <==> Occurs(word, s)
    decreases |s|
  {
    OccursSteps(s, word);
    if s != [] { ContainsExactly(s[1..], word); }
  }

  /** The flags say the word somewhere. */
  ghost predicate Mentions(flags: seq<byte>, word: string) { exists w :: Says(w, word) && Occurs(w, flags) }

  lemma MentionsExactly(flags: seq<byte>, w: seq<byte>, word: string)
    requires Says(w, word)
    ensures Contains(flags, w) <==> Mentions(flags, word)
  {
    ContainsExactly(flags, w);
    forall v | Says(v, word) ensures v == w {}
  }

  /** The flags name the security, the strongest word deciding. */
  lemma SecurityExactly(flags: seq<byte>)
    ensures SecurityOf(flags) == SecEnterprise <==> Mentions(flags, "EAP")
    ensures SecurityOf(flags) == SecPSK <==>
      !Mentions(flags, "EAP") && (Mentions(flags, "PSK") || Mentions(flags, "SAE"))
    ensures SecurityOf(flags) == SecOpen <==>
      !Mentions(flags, "EAP") && !Mentions(flags, "PSK") && !Mentions(flags, "SAE") && !Mentions(flags, "WEP")
  {
    MentionsExactly(flags, [69, 65, 80], "EAP");
    MentionsExactly(flags, [80, 83, 75], "PSK");
    MentionsExactly(flags, [83, 65, 69], "SAE");
    MentionsExactly(flags, [87, 69, 80], "WEP");
  }

  // ---- escapes ------------------------------------------------------------------------------------------------

  /** Escapes that the supplicant's encoder does not use: capital digits, other letters, and none at all. */
  lemma OtherEscapes(c: byte, h: byte, l: byte, rest: seq<byte>)
    ensures HexValue(h).Some? && HexValue(l).Some? ==>
      Unescaped([BACKSLASH, 120, h, l] + rest)
      == [16 * HexValue(h).value + HexValue(l).value] + Unescaped(rest)
    ensures c !in {101, 110, 114, 116, 120} ==> Unescaped([BACKSLASH, c] + rest) == [c] + Unescaped(rest)
    ensures Unescaped([BACKSLASH]) == [BACKSLASH]
  {
    var s, t := [BACKSLASH, 120, h, l] + rest, [BACKSLASH, c] + rest;
    assert s[2..][0] == h && s[2..][1] == l && s[4..] == rest && t[2..] == rest;
    assert [BACKSLASH][1..] == [];
  }

  lemma CapitalDigits(n: nat)
    requires n < 16
    ensures HexValue(Digit(n)) == Some(n) && (n >= 10 ==> HexValue(Digit(n) - 32) == Some(n))
  {}

  lemma {:induction false} EscapedHasNone(ssid: Ssid)
    ensures NoTab(Escaped(ssid)) && NEWLINE !in Escaped(ssid) && (ssid != [] ==> Escaped(ssid) != [])
    decreases |ssid|
  {
    if ssid != [] {
      EscapedHasNone(ssid[1..]);
      EscapeByteHasNone(ssid[0]);
    }
  }

  lemma EscapeByteHasNone(c: byte)
    ensures NoTab(EscapeByte(c)) && NEWLINE !in EscapeByte(c) && EscapeByte(c) != []
  {}

  // ---- the text of a scan -------------------------------------------------------------------------------------

  /** A network as the supplicant reports it. */
  datatype Report = Report(bssid: seq<byte>, frequency: nat, signal: int, flags: seq<byte>, ssid: Ssid)

  predicate Reportable(r: Report) {
    && NoTab(r.bssid) && NEWLINE !in r.bssid && NoTab(r.flags) && NEWLINE !in r.flags && r.ssid != []
    && r.frequency < 0x1_0000_0000 && -TWO63 <= 2 * r.signal < TWO63
  }

  function Line(r: Report): seq<byte> {
    TabLine(r.bssid, Decimal(r.frequency), Printed(r.signal), r.flags, Escaped(r.ssid))
  }

  /** The signal in decibels on a scale from -100 to -50, or the quality that some drivers report instead. */
  function Percent(signal: int): nat {
    if signal >= 50 then 100 else if signal >= 0 then 2 * signal
    else if signal >= -50 then 100 else if signal >= -100 then 2 * (signal + 100) else 0
  }

  /**
    The percentage comes out right exactly as long as doubling stays within 64 bits, or by chance
    where what is left of a wrapped one has the right last byte.
   */
  lemma PercentExactly(signal: int)
    requires -TWO63 <= signal < TWO63
    ensures
      Strength(signal) == Percent(signal)
      <==> -TWO63 <= 2 * (signal + 100) && (2 * signal < TWO63 || 2 * signal % 256 == 100)
  {
    if 2 * signal >= TWO63 {
      WrapsDown(2 * signal);
    } else if signal < 0 && 2 * (signal + 100) < -TWO63 {
      WrapsUp(2 * (signal + 100));
    } else if signal < 0 {
      NoWrap(2 * (signal + 100));
    } else {
      NoWrap(2 * signal);
    }
  }

  lemma WrapsDown(x: int)
    requires TWO63 <= x < 2 * TWO63
    ensures Wrap64(x) == x - 2 * TWO63 && Wrap64(x) % 256 == x % 256
  {}

  lemma WrapsUp(x: int)
    requires -2 * TWO63 <= x < -TWO63
    ensures Wrap64(x) == x + 2 * TWO63
  {}

  function Shown(r: Report): AP<Ssid> {
    AP(r.ssid, r.bssid, r.frequency, Percent(r.signal), SecurityOf(r.flags))
  }

  lemma PercentIs(signal: int)
    requires -TWO63 <= 2 * signal < TWO63
    ensures Strength(signal) == Percent(signal)
  {
    StrengthIs(signal);
  }

  /** The line of a network is read as exactly that network. */
  lemma ReportReads(r: Report)
    requires Reportable(r)
    ensures Candidate(Line(r)) == Some(Shown(r)) && NEWLINE !in Line(r)
  {
    var fr, sg := Decimal(r.frequency), Printed(r.signal);
    FieldsHaveNone(r);
    NumbersRead(r);
    LineReads(r.bssid, fr, sg, r.flags, Escaped(r.ssid));
    NoNewline(r.bssid, fr, sg, r.flags, Escaped(r.ssid));
    UnescapeInverts(r.ssid);
  }

  lemma FieldsHaveNone(r: Report)
    requires r.ssid != []
    ensures NoTab(Decimal(r.frequency)) && NEWLINE !in Decimal(r.frequency)
    ensures NoTab(Printed(r.signal)) && NEWLINE !in Printed(r.signal)
    ensures NoTab(Escaped(r.ssid)) && NEWLINE !in Escaped(r.ssid) && Escaped(r.ssid) != []
  {
    PrintedHasNone(r.frequency);
    PrintedHasNone(r.signal);
    EscapedHasNone(r.ssid);
  }

  lemma NumbersRead(r: Report)
    requires Reportable(r)
    ensures Atoi(Decimal(r.frequency)) % 0x1_0000_0000 == r.frequency
    ensures Strength(Atoi(Printed(r.signal))) == Percent(r.signal)
  {
    assert Decimal(r.frequency) == Printed(r.frequency);
    AtoiReads(r.frequency);
    AtoiReads(r.signal);
    PercentIs(r.signal);
  }

  lemma NoNewline(b: seq<byte>, fr: seq<byte>, sg: seq<byte>, fl: seq<byte>, raw: seq<byte>)
    requires NEWLINE !in b && NEWLINE !in fr && NEWLINE !in sg && NEWLINE !in fl && NEWLINE !in raw
    ensures NEWLINE !in TabLine(b, fr, sg, fl, raw)
  {}

  function LinesOf(rs: seq<Report>): (ls: seq<seq<byte>>)
    ensures |ls| == |rs|
  {
    seq(|rs|, i requires 0 <= i < |rs| => Line(rs[i]))
  }

  function ShownAll(rs: seq<Report>): (aps: seq<AP<Ssid>>)
    ensures |aps| == |rs|
  {
    seq(|rs|, i requires 0 <= i < |rs| => Shown(rs[i]))
  }

  /** The rest of the text after a line: the lines of rs, and a final newline or not. */
  function Tail(rs: seq<Report>, ends: bool): seq<byte> {
    if rs == [] then (if ends then [NEWLINE] else []) else [NEWLINE] + (Line(rs[0]) + Tail(rs[1..], ends))
  }

  /** The empty line after a final newline. */
  function Blank(ends: bool): seq<seq<byte>> { if ends then [[]] else [] }

  lemma {:induction false} TextSplits(first: seq<byte>, rs: seq<Report>, ends: bool)
    requires NEWLINE !in first && forall r <- rs :: Reportable(r)
    ensures SplitN(first + Tail(rs, ends), NEWLINE, 0) == [first] + (LinesOf(rs) + Blank(ends))
    decreases |rs|
  {
    if rs == [] {
      LastSplits(first, ends);
    } else {
      ReportReads(rs[0]);
      TextSplits(Line(rs[0]), rs[1..], ends);
      SplitFirst(first, NEWLINE, Line(rs[0]) + Tail(rs[1..], ends), 0);
      Regroup(first, [NEWLINE], Line(rs[0]) + Tail(rs[1..], ends));
      FirstLineOf(rs);
      Regroup([Line(rs[0])], LinesOf(rs[1..]), Blank(ends));
    }
  }

  lemma LastSplits(first: seq<byte>, ends: bool)
    requires NEWLINE !in first
    ensures SplitN(first + Tail([], ends), NEWLINE, 0) == [first] + (LinesOf([]) + Blank(ends))
  {
    if ends {
      SplitFirst(first, NEWLINE, [], 0);
      SplitLast([], NEWLINE, 0);
      assert first + [NEWLINE] + [] == first + [NEWLINE];
    } else {
      SplitLast(first, NEWLINE, 0);
      assert first + [] == first;
    }
  }

  lemma Regroup<T>(a: seq<T>, b: seq<T>, c: seq<T>)
    ensures a + b + c == a + (b + c)
  {}

  lemma FirstLineOf(rs: seq<Report>)
    requires rs != []
    ensures LinesOf(rs) == [Line(rs[0])] + LinesOf(rs[1..])
  {}

  lemma LastLineOf(rs: seq<Report>)
    requires rs != []
    ensures
      var n := |rs| - 1;
      && LinesOf(rs)[..n] == LinesOf(rs[..n]) && LinesOf(rs)[n] == Line(rs[n])
      && ShownAll(rs) == ShownAll(rs[..n]) + [Shown(rs[n])]
  {}

  lemma {:induction false} LinesRead(rs: seq<Report>)
    requires forall r <- rs :: Reportable(r)
    ensures Candidates(LinesOf(rs)) == ShownAll(rs)
    decreases |rs|
  {
    if rs != [] {
      var n := |rs| - 1;
      LinesRead(rs[..n]);
      ReportReads(rs[n]);
      LastLineOf(rs);
    }
  }

  lemma BlankLast(ls: seq<seq<byte>>)
    ensures Candidates(ls + [[]]) == Candidates(ls)
  {
    assert (ls + [[]])[..|ls|] == ls;
    SplitLast([], TAB, 5);
    assert Candidates(ls) + [] == Candidates(ls);
  }

  lemma AfterFirst<T>(x: T, xs: seq<T>)
    ensures ([x] + xs)[1..] == xs && xs + [] == xs
  {}

  /** The scan of a reported list is that list, one entry per SSID, ranked; the heading line is passed over. */
  lemma ScanReads(heading: seq<byte>, rs: seq<Report>, ends: bool)
    requires NEWLINE !in heading && forall r <- rs :: Reportable(r)
    ensures Scan(heading + Tail(rs, ends)) == Ranked(Merged(ShownAll(rs)))
  {
    TextSplits(heading, rs, ends);
    AfterFirst(heading, LinesOf(rs) + Blank(ends));
    LinesRead(rs);
    BlankLast(LinesOf(rs));
    AfterFirst([], LinesOf(rs));
  }
}
