/** Text as sequences of code points, with the library operations the daemon's parsers rest on. */
module Text {
  import opened Common
  import opened Sorting

  // ---- white space ---------------------------------------------------------------------------------

  predicate IsSpace(c: char) {
    var n := c as int;
    9 <= n <= 13 || n == 32 || n == 0x85 || n == 0xA0 || n == 0x1680 || 0x2000 <= n <= 0x200A
    || n == 0x2028 || n == 0x2029 || n == 0x202F || n == 0x205F || n == 0x3000
  }

  function TrimLeft(s: string): (t: string)
    ensures |t| <= |s| && (t != "" ==> !IsSpace(t[0]))
  {
    if s != "" && IsSpace(s[0]) then TrimLeft(s[1..]) else s
  }

  function TrimRight(s: string): (t: string)
    ensures |t| <= |s| && (t != "" ==> !IsSpace(t[|t| - 1]) && t[0] == s[0])
  {
    if s != "" && IsSpace(s[|s| - 1]) then TrimRight(s[..|s| - 1]) else s
  }

  /** strings.TrimSpace */
  function Trim(s: string): (t: string)
    ensures |t| <= |s| && IsTrimmed(t)
  {
    TrimRight(TrimLeft(s))
  }

  predicate IsTrimmed(s: string) { s != "" ==> !IsSpace(s[0]) && !IsSpace(s[|s| - 1]) }

  lemma TrimmedStays(s: string)
    requires IsTrimmed(s)
    ensures Trim(s) == s
  {}

  lemma TrimSpaceBefore(s: string)
    requires IsTrimmed(s)
    ensures Trim(" " + s) == s
  {
    assert (" " + s)[0] == ' ' && (" " + s)[1..] == s;
    assert TrimLeft(s) == s;
  }

  lemma {:induction false} TrimLeftIsSuffix(s: string)
    ensures TrimLeft(s) == s[|s| - |TrimLeft(s)|..]
    decreases |s|
  {
    if s != "" && IsSpace(s[0]) {
      TrimLeftIsSuffix(s[1..]);
    }
  }

  lemma {:induction false} TrimRightIsPrefix(s: string)
    ensures TrimRight(s) == s[..|TrimRight(s)|]
    decreases |s|
  {
    if s != "" && IsSpace(s[|s| - 1]) {
      TrimRightIsPrefix(s[..|s| - 1]);
    }
  }

  lemma TrimKeeps(s: string, c: char)
    requires c !in s
    ensures c !in Trim(s)
  {
    TrimLeftIsSuffix(s);
    TrimRightIsPrefix(TrimLeft(s));
  }

  /** Trimming drops only spaces, so what is left starts with the first character that is none. */
  lemma TrimFirst(s: string)
    requires s != "" && !IsSpace(s[0])
    ensures Trim(s) != "" && Trim(s)[0] == s[0]
  {
    assert TrimLeft(s) == s;
    TrimRightKeeps(s);
  }

  lemma {:induction false} TrimRightKeeps(s: string)
    requires s != "" && !IsSpace(s[0])
    ensures TrimRight(s) != ""
    decreases |s|
  {
    if IsSpace(s[|s| - 1]) {
      TrimRightKeeps(s[..|s| - 1]);
    }
  }

  lemma {:induction false} TrimLeftThenRight(s: string)
    ensures TrimRight(TrimLeft(TrimRight(s))) == TrimRight(TrimLeft(s))
    decreases |s|
  {
    if s != "" && IsSpace(s[|s| - 1]) {
      var n := |s| - 1;
      TrimLeftThenRight(s[..n]);
      assert s == s[..n] + [s[n]];
      TrimLeftMore(s[..n], s[n]);
      assert TrimLeft(s) != "" ==> TrimLeft(s)[..|TrimLeft(s)| - 1] == TrimLeft(s[..n]);
    }
  }

  lemma {:induction false} TrimLeftMore(s: string, c: char)
    requires IsSpace(c)
    ensures TrimLeft(s + [c]) == if TrimLeft(s) == "" then "" else TrimLeft(s) + [c]
    decreases |s|
  {
    if s == "" {
      assert s + [c] == [c] && [c][1..] == "";
    } else {
      assert (s + [c])[1..] == s[1..] + [c];
      if IsSpace(s[0]) { TrimLeftMore(s[1..], c); }
    }
  }

  lemma {:induction false} TrimRightAfter(a: string, b: string)
    requires a != "" && !IsSpace(a[|a| - 1])
    ensures TrimRight(a + b) == a + TrimRight(b)
    decreases |b|
  {
    if b == "" {
      assert a + b == a;
    } else {
      var n := |b| - 1;
      assert (a + b)[..|a| + n] == a + b[..n];
      if IsSpace(b[n]) { TrimRightAfter(a, b[..n]); }
    }
  }

  // ---- text as bytes ---------------------------------------------------------------------------------

  /** The bytes b are the ASCII text s. */
  predicate Says(b: seq<byte>, s: string) { |b| == |s| && forall i :: 0 <= i < |s| ==> b[i] == s[i] as int }

  // ---- searching and splitting -----------------------------------------------------------------------

  /** strings.IndexByte for an ASCII byte. */
  function IndexOf(s: string, c: char): (i: int)
    ensures -1 <= i < |s|
    ensures if i < 0 then c !in s else s[i] == c && c !in s[..i]
  {
    if s == "" then -1
    else if s[0] == c then 0
    else
      var i := IndexOf(s[1..], c);
      if i < 0 then -1 else assert s[..i + 1] == [s[0]] + s[1..][..i]; i + 1
  }

  lemma IndexAfter(a: string, c: char, b: string)
    requires c !in a
    ensures IndexOf(a + [c] + b, c) == |a|
  {
    var s := a + [c] + b;
    assert s[|a|] == c && forall k :: 0 <= k < |a| ==> s[k] == a[k];
    assert forall i :: |a| < i <= |s| ==> s[..i][|a|] == c;
  }

  /** strings.Split on line feeds. */
  function Lines(s: string): (ls: seq<string>)
    ensures |ls| > 0 && forall l <- ls :: '\n' !in l
    decreases |s|
  {
    var i := IndexOf(s, '\n');
    if i < 0 then [s] else [s[..i]] + Lines(s[i + 1..])
  }

  lemma FirstLine(line: string, rest: string)
    requires '\n' !in line
    ensures Lines(line + "\n" + rest) == [line] + Lines(rest)
  {
    IndexAfter(line, '\n', rest);
    var s := line + "\n" + rest;
    assert s[..|line|] == line && s[|line| + 1..] == rest;
  }

  /** strings.Fields: the maximal runs without white space; word is the run being read. */
  function FieldsFrom(word: string, s: string): seq<string>
    decreases |s|
  {
    if s == "" then Word(word)
    else if IsSpace(s[0]) then Word(word) + FieldsFrom("", s[1..])
    else FieldsFrom(word + [s[0]], s[1..])
  }

  function Word(word: string): seq<string> { if word == "" then [] else [word] }

  function Fields(s: string): seq<string> { FieldsFrom("", s) }

  predicate NoSpace(s: string) { forall c <- s :: !IsSpace(c) }

  lemma {:induction false} FieldsWord(word: string, x: string, s: string)
    requires NoSpace(x)
    ensures FieldsFrom(word, x + s) == FieldsFrom(word + x, s)
    decreases |x|
  {
    if x == "" {
      assert x + s == s && word + x == word;
    } else {
      assert (x + s)[1..] == x[1..] + s && word + [x[0]] + x[1..] == word + x;
      FieldsWord(word + [x[0]], x[1..], s);
    }
  }

  lemma {:induction false} FieldsHaveNoSpace(word: string, s: string)
    requires NoSpace(word)
    ensures forall f <- FieldsFrom(word, s) :: f != "" && NoSpace(f)
    decreases |s|
  {
    if s != "" {
      FieldsHaveNoSpace(if IsSpace(s[0]) then "" else word + [s[0]], s[1..]);
    }
  }

  /** Words joined by single spaces. */
  function Join(ws: seq<string>): string {
    if ws == [] then "" else if |ws| == 1 then ws[0] else ws[0] + " " + Join(ws[1..])
  }

  function NonEmpty(ws: seq<string>): (r: seq<string>)
    ensures |r| <= |ws| && (|r| == |ws| <==> "" !in ws) && ("" !in ws ==> r == ws)
  {
    if ws == [] then [] else Word(ws[0]) + NonEmpty(ws[1..])
  }

  lemma {:induction false} FieldsOfJoin(ws: seq<string>)
    requires forall w <- ws :: NoSpace(w)
    ensures Fields(Join(ws)) == NonEmpty(ws)
    decreases |ws|
  {
    if ws != [] {
      if |ws| == 1 {
        FieldsWord("", ws[0], "");
        assert ws[0] + "" == ws[0] && "" + ws[0] == ws[0];
        assert ws[1..] == [];
      } else {
        var tail := " " + Join(ws[1..]);
        assert Join(ws) == ws[0] + tail;
        FieldsWord("", ws[0], tail);
        assert "" + ws[0] == ws[0] && tail[1..] == Join(ws[1..]);
        FieldsOfJoin(ws[1..]);
      }
    }
  }

  lemma {:induction false} JoinHasNoLineFeed(ws: seq<string>)
    requires forall d <- ws :: NoSpace(d)
    ensures '\n' !in Join(ws)
    decreases |ws|
  {
    if ws != [] {
      assert ws[0] in ws;
      assert IsSpace('\n');
      JoinHasNoLineFeed(ws[1..]);
    }
  }

  /** Words with no white space make a text with none at its ends. */
  lemma {:induction false} JoinIsTrimmed(ws: seq<string>)
    requires forall w <- ws :: w != "" && NoSpace(w)
    ensures IsTrimmed(Join(ws)) && (ws != [] ==> Join(ws) != "")
    decreases |ws|
  {
    if ws != [] { assert ws[0] in ws; }
    if |ws| > 1 {
      assert forall w <- ws[1..] :: w in ws;
      JoinIsTrimmed(ws[1..]);
      var tail := Join(ws[1..]);
      assert Join(ws)[0] == ws[0][0] && Join(ws)[|Join(ws)| - 1] == tail[|tail| - 1];
    }
  }

  // ---- the order of strings ------------------------------------------------------------------------------

  /** Code points compare like the bytes of their UTF-8 encoding. */
  predicate AtMost(a: string, b: string) {
    a == "" || (b != "" && (a[0] < b[0] || (a[0] == b[0] && AtMost(a[1..], b[1..]))))
  }

  lemma {:induction false} OrderTotal(a: string, b: string)
    ensures AtMost(a, b) || AtMost(b, a)
    ensures AtMost(a, b) && AtMost(b, a) ==> a == b
    decreases |a|
  {
    if a != "" && b != "" && a[0] == b[0] {
      OrderTotal(a[1..], b[1..]);
      assert a == [a[0]] + a[1..] && b == [b[0]] + b[1..];
    }
  }

  lemma {:induction false} OrderTransitive(a: string, b: string, c: string)
    requires AtMost(a, b) && AtMost(b, c)
    ensures AtMost(a, c)
    decreases |a|
  {
    if a != "" && a[0] == b[0] == c[0] {
      OrderTransitive(a[1..], b[1..], c[1..]);
    }
  }

  lemma StringsLinear(xs: seq<string>)
    ensures Linear(AtMost, xs)
  {
    forall a, b ensures (AtMost(a, b) || AtMost(b, a)) && (AtMost(a, b) && AtMost(b, a) ==> a == b) {
      OrderTotal(a, b);
    }
    forall a, b, c | AtMost(a, b) && AtMost(b, c) ensures AtMost(a, c) {
      OrderTransitive(a, b, c);
    }
  }

  /** One is the front of the other, or they first differ where the smaller has the smaller character. */
  ghost predicate Smaller(a: string, b: string) {
    a <= b || exists i :: 0 <= i < |a| && i < |b| && a[..i] == b[..i] && a[i] < b[i]
  }

  lemma {:induction false} Lexicographic(a: string, b: string)
    ensures AtMost(a, b) <==> Smaller(a, b)
    decreases |a|
  {
    if a != "" && b != "" && a[0] == b[0] {
      Lexicographic(a[1..], b[1..]);
      SmallerLater(a, b);
    } else if a != "" && b != "" {
      assert a[..0] == b[..0];
    }
  }

  lemma SmallerLater(a: string, b: string)
    requires a != "" && b != "" && a[0] == b[0]
    ensures Smaller(a, b) <==> Smaller(a[1..], b[1..])
  {
    assert a == [a[0]] + a[1..] && b == [b[0]] + b[1..];
    if i :| 0 <= i < |a[1..]| && i < |b[1..]| && a[1..][..i] == b[1..][..i] && a[1..][i] < b[1..][i] {
      assert a[..i + 1] == [a[0]] + a[1..][..i] && b[..i + 1] == [b[0]] + b[1..][..i];
    }
    if i :| 0 <= i < |a| && i < |b| && a[..i] == b[..i] && a[i] < b[i] {
      assert i > 0 && a[1..][..i - 1] == a[..i][1..] && b[1..][..i - 1] == b[..i][1..];
    }
  }

  /** sort.Strings */
  function SortStrings(xs: seq<string>): seq<string> { Sort(AtMost, xs) }
}
