/**
  The parser for list settings in the old form of Go's fmt package, and the grammar it inverts:
  scanning loops against recursive specifications, and those against printed text.
 */
module Legacy {
  import opened Common
  import opened Text

  predicate IsKeyChar(c: char) { c == '-' || c == '_' || 'a' <= c <= 'z' || '0' <= c <= '9' }

  /** Parentheses count as brackets inside a value, but not between the brackets of a map. */
  predicate IsOpen(c: char, parens: bool) { c == '[' || c == '<' || c == '{' || (parens && c == '(') }

  predicate IsClose(c: char, parens: bool) { c == ']' || c == '>' || c == '}' || (parens && c == ')') }

  // ---- specifications of the scanners ----------------------------------------------------------------

  function Shift(n: Option<nat>, k: nat): Option<nat> { if n.None? then None else Some(n.value + k) }

  /** Where, in s, the closing bracket is that brings depth back to zero. */
  function Match(s: string, depth: int, quoted: bool): (r: Option<nat>)
    ensures r.Some? ==> r.value < |s|
    decreases |s|
  {
    if s == "" then None
    else if quoted then
      if s[0] == '\\' then (if |s| < 2 then None else Shift(Match(s[2..], depth, true), 2))
      else Shift(Match(s[1..], depth, s[0] != '\"'), 1)
    else if s[0] == '\"' then Shift(Match(s[1..], depth, true), 1)
    else if IsOpen(s[0], false) then Shift(Match(s[1..], depth + 1, false), 1)
    else if IsClose(s[0], false) then
      if depth == 1 then Some(0) else Shift(Match(s[1..], depth - 1, false), 1)
    else Shift(Match(s[1..], depth, false), 1)
  }

  predicate StartsPairSpec(s: string) {
    var i := IndexOf(s, ':');
    i > 0 && forall k :: 0 <= k < i ==> IsKeyChar(s[k])
  }

  /** How much of s belongs to the value it starts with. */
  function ValueLen(s: string, depth: int, quoted: bool): (n: nat)
    ensures n <= |s|
    decreases |s|
  {
    if s == "" then 0
    else if quoted then
      if s[0] == '\\' then (if |s| < 2 then 1 else 2 + ValueLen(s[2..], depth, true))
      else 1 + ValueLen(s[1..], depth, s[0] != '\"')
    else if s[0] == '\"' then 1 + ValueLen(s[1..], depth, true)
    else if IsOpen(s[0], true) then 1 + ValueLen(s[1..], depth + 1, false)
    else if IsClose(s[0], true) then 1 + ValueLen(s[1..], depth - 1, false)
    else if s[0] == ' ' && depth == 0 && StartsPairSpec(s[1..]) then 0
    else 1 + ValueLen(s[1..], depth, false)
  }

  function Pairs<V>(parse: string -> Option<V>, s: string, acc: map<string, V>): Option<map<string, V>>
    decreases |s|, 1
  {
    PairsFrom(parse, Trim(s), acc)
  }

  function PairsFrom<V>(parse: string -> Option<V>, t: string, acc: map<string, V>): Option<map<string, V>>
    decreases |t|, 0
  {
    if t == "" then Some(acc)
    else
      var colon := IndexOf(t, ':');
      if colon <= 0 then None
      else
        var rest := t[colon + 1..];
        var n := ValueLen(rest, 0, false);
        var v := parse(Trim(rest[..n]));
        if v.None? then None else Pairs(parse, rest[n..], acc[t[..colon] := v.value])
  }

  function MapsSpec<V>(parse: string -> Option<V>, s: string): Option<seq<map<string, V>>>
    decreases |s|, 1
  {
    MapsFrom(parse, Trim(s))
  }

  function MapsFrom<V>(parse: string -> Option<V>, t: string): Option<seq<map<string, V>>>
    decreases |t|, 0
  {
    if t == "" then Some([])
    else if !("map[" <= t) then None
    else
      var end := Match(t[3..], 0, false);
      if end.None? || end.value == 0 then None
      else
        var m := Pairs(parse, t[4..3 + end.value], map[]);
        if m.None? then None else Prepend([m.value], MapsSpec(parse, t[3 + end.value + 1..]))
  }

  function Prepend<T>(a: seq<T>, b: Option<seq<T>>): (r: Option<seq<T>>)
    ensures (a == [] ==> r == b) && (b == Some([]) ==> r == Some(a))
  {
    if b.None? then None else assert [] + b.value == b.value && a + [] == a; Some(a + b.value)
  }

  function StringsSpec(s: string): seq<string> {
    seq(|Fields(s)|, i requires 0 <= i < |Fields(s)| => Unquote(Fields(s)[i]))
  }

  /** strings.Trim with the quote as cutset */
  function Unquote(s: string): (t: string)
    ensures |t| <= |s| && (|t| == |s| ==> t == s)
    ensures t != "" ==> t[0] != '\"' && t[|t| - 1] != '\"'
    ensures t == s <==> !QuoteEdged(s)
    decreases |s|
  {
    if s == "" then s
    else if s[0] == '\"' then Unquote(s[1..])
    else if s[|s| - 1] == '\"' then Unquote(s[..|s| - 1])
    else s
  }

  predicate QuoteEdged(s: string) { s != "" && (s[0] == '\"' || s[|s| - 1] == '\"') }

  // ---- the code ------------------------------------------------------------------------------------------

  lemma TailOf(s: string, i: nat)
    requires i < |s|
    ensures s[i..][1..] == s[i + 1..] && (i + 2 <= |s| ==> s[i..][2..] == s[i + 2..])
  {}

  /** What one character does to the scan: depth, quoting, and how far it goes on. */
  function Scanned(c: char, depth: int, quoted: bool): (int, bool, nat) {
    if quoted && c == '\\' then (depth, true, 2)
    else if c == '\"' then (depth, !quoted, 1)
    else if quoted then (depth, true, 1)
    else if IsOpen(c, false) then (depth + 1, false, 1)
    else if IsClose(c, false) then (depth - 1, false, 1)
    else (depth, false, 1)
  }

  lemma MatchAt(s: string, i: nat, depth: int, quoted: bool)
    requires i < |s|
    ensures
      var (d, q, k) := Scanned(s[i], depth, quoted);
      Match(s[i..], depth, quoted) ==
      if !quoted && IsClose(s[i], false) && depth == 1 then Some(0)
      else if i + k > |s| then None
      else Shift(Match(s[i + k..], d, q), k)
  {
    TailOf(s, i);
  }

  /** Carrying the outcome of the scan over one character. */
  lemma ScanStep(whole: Option<nat>, s: string, at: nat, i: nat, depth: int, quoted: bool)
    requires i < |s| && whole == Shift(Match(s[i..], depth, quoted), at)
    ensures
      var (d, q, k) := Scanned(s[i], depth, quoted);
      whole ==
      if !quoted && IsClose(s[i], false) && depth == 1 then Some(at)
      else if i + k > |s| then None
      else Shift(Match(s[i + k..], d, q), at + k)
  {
    MatchAt(s, i, depth, quoted);
  }

  method Closing(s: string, open: nat) returns (r: int)
    requires open <= |s|
    ensures r == match Match(s[open..], 0, false) case None => -1 case Some(n) => open + n
  {
    var depth, quoted, i := 0, false, open;
    ghost var whole := Match(s[open..], 0, false);
    while i < |s|
      invariant open <= i <= |s| + 1
      invariant whole == if i > |s| then None else Shift(Match(s[i..], depth, quoted), i - open)
    {
      var ch := s[i];
      ScanStep(whole, s, i - open, i, depth, quoted);
      ghost var next, at := Scanned(ch, depth, quoted), i;
      if quoted && ch == '\\' {
        i := i + 1;
      } else if ch == '\"' {
        quoted := !quoted;
      } else if quoted {
      } else if ch == '[' || ch == '<' || ch == '{' {
        depth := depth + 1;
      } else if ch == ']' || ch == '>' || ch == '}' {
        depth := depth - 1;
        if depth == 0 { return i; }
      }
      i := i + 1;
      assert next == (depth, quoted, i - at);
    }
    r := -1;
  }

  method StartsPair(s: string) returns (r: bool)
    ensures r == StartsPairSpec(s)
  {
    var i := 0;
    while i < |s|
      invariant 0 <= i <= |s| && ':' !in s[..i] && forall k :: 0 <= k < i ==> IsKeyChar(s[k])
    {
      var ch := s[i];
      if ch == ':' {
        IndexAfter(s[..i], ':', s[i + 1..]);
        assert s == s[..i] + [':'] + s[i + 1..];
        return i > 0;
      }
      if !(ch == '-' || ch == '_' || (ch >= 'a' && ch <= 'z') || (ch >= '0' && ch <= '9')) {
        assert forall j :: i < j <= |s| ==> s[..j][i] == ch;
        return false;
      }
      assert s[..i + 1] == s[..i] + [ch];
      i := i + 1;
    }
    assert s[..i] == s;
    r := false;
  }

  method ValueEnd(s: string) returns (r: nat)
    ensures r == ValueLen(s, 0, false)
  {
    var depth, quoted, i := 0, false, 0;
    while i < |s|
      invariant 0 <= i <= |s| + 1
      invariant i <= |s| ==> ValueLen(s, 0, false) == i + ValueLen(s[i..], depth, quoted)
      invariant i > |s| ==> ValueLen(s, 0, false) == |s|
    {
      var ch := s[i];
      TailOf(s, i);
      if quoted && ch == '\\' {
        i := i + 1;
      } else if ch == '\"' {
        quoted := !quoted;
      } else if quoted {
      } else if ch == '[' || ch == '<' || ch == '{' || ch == '(' {
        depth := depth + 1;
      } else if ch == ']' || ch == '>' || ch == '}' || ch == ')' {
        depth := depth - 1;
      } else if ch == ' ' && depth == 0 {
        var starts := StartsPair(s[i + 1..]);
        if starts { return i; }
      }
      i := i + 1;
    }
    r := |s|;
  }

  method LegacyPairs<V>(parse: string -> Option<V>, text: string) returns (r: Option<map<string, V>>)
    ensures r == Pairs(parse, text, map[])
  {
    var m: map<string, V> := map[];
    var s := text;
    while true
      invariant Pairs(parse, text, map[]) == Pairs(parse, s, m)
      decreases |s|
    {
      s := Trim(s);
      if s == "" { return Some(m); }
      var colon := IndexOf(s, ':');
      if colon <= 0 { return None; }
      var key, rest := s[..colon], s[colon + 1..];
      var n := ValueEnd(rest);
      var v := parse(Trim(rest[..n]));
      if v.None? { return None; }
      m := m[key := v.value];
      s := rest[n..];
    }
  }

  method LegacyMaps<V>(parse: string -> Option<V>, text: string) returns (r: Option<seq<map<string, V>>>)
    ensures r == MapsSpec(parse, text)
  {
    var out: seq<map<string, V>> := [];
    var s := text;
    while true
      invariant MapsSpec(parse, text) == Prepend(out, MapsSpec(parse, s))
      decreases |s|
    {
      s := Trim(s);
      assert MapsSpec(parse, text) == Prepend(out, MapsFrom(parse, s));
      if s == "" { return Some(out); }
      var m, rest := LegacyMap(parse, s);
      if m.None? { return None; }
      PrependMore(out, m.value, MapsSpec(parse, rest));
      out := out + [m.value];
      s := rest;
    }
  }

  /** The loop body of LegacyMaps: the first map of s and the text after it. */
  method LegacyMap<V>(parse: string -> Option<V>, s: string) returns (m: Option<map<string, V>>, rest: string)
    requires s != ""
    ensures |rest| < |s|
    ensures MapsFrom(parse, s) == if m.None? then None else Prepend([m.value], MapsSpec(parse, rest))
  {
    if !("map[" <= s) { return None, ""; }
    var end := Closing(s, 3);
    assert s[3] == '[';
    if end < 0 { return None, ""; }
    assert end > 3;
    m := LegacyPairs(parse, s[4..end]);
    rest := s[end + 1..];
  }

  lemma PrependMore<T>(a: seq<T>, x: T, b: Option<seq<T>>)
    ensures Prepend(a + [x], b) == Prepend(a, Prepend([x], b))
  {
    if b.Some? {
      assert a + [x] + b.value == a + ([x] + b.value);
    }
  }

  method LegacyStrings(s: string) returns (out: seq<string>)
    ensures out == StringsSpec(s)
  {
    out := [];
    var fs := Fields(s);
    for i := 0 to |fs|
      invariant out == StringsSpec(s)[..i]
    {
      out := out + [Unquote(fs[i])];
    }
  }

  // ---- the text that is printed ----------------------------------------------------------------------------

  /** What stands between quotes: a backslash takes the next character with it. */
  datatype Quote = Unit | Char(c: char, more: Quote) | Escape(c: char, more: Quote)

  /** Text with properly nested brackets and closed quotes. */
  datatype Nested =
    | End
    | Plain(c: char, rest: Nested)
    | Quoted(body: Quote, rest: Nested)
    | Group(open: char, inner: Nested, close: char, rest: Nested)

  /** The printed form of q, with s printed after it. */
  function QuoteTo(q: Quote, s: string): string {
    match q
    case Unit => s
    case Char(c, more) => [c] + QuoteTo(more, s)
    case Escape(c, more) => ['\\', c] + QuoteTo(more, s)
  }

  predicate OkQuote(q: Quote) {
    match q
    case Unit => true
    case Char(c, more) => c != '\"' && c != '\\' && OkQuote(more)
    case Escape(_, more) => OkQuote(more)
  }

  /** The printed form of t, with s printed after it. */
  function ShowTo(t: Nested, s: string): string {
    match t
    case End => s
    case Plain(c, rest) => [c] + ShowTo(rest, s)
    case Quoted(body, rest) => ['\"'] + QuoteTo(body, ['\"'] + ShowTo(rest, s))
    case Group(open, inner, close, rest) => [open] + ShowTo(inner, [close] + ShowTo(rest, s))
  }

  function Show(t: Nested): string { ShowTo(t, "") }

  lemma {:induction false} QuoteToSplits(q: Quote, s: string)
    ensures QuoteTo(q, s) == QuoteTo(q, "") + s
    decreases q
  {
    match q
    case Unit =>
    case Char(c, more) => QuoteToSplits(more, s);
    case Escape(c, more) => QuoteToSplits(more, s);
  }

  lemma {:induction false} ShowToSplits(t: Nested, s: string)
    ensures ShowTo(t, s) == Show(t) + s
    decreases t
  {
    match t
    case End =>
    case Plain(c, rest) =>
      ShowToSplits(rest, s);
    case Quoted(body, rest) =>
      ShowToSplits(rest, s);
      QuoteToSplits(body, ['\"'] + ShowTo(rest, s));
      QuoteToSplits(body, ['\"'] + Show(rest));
    case Group(open, inner, close, rest) =>
      ShowToSplits(rest, s);
      ShowToSplits(inner, [close] + ShowTo(rest, s));
      ShowToSplits(inner, [close] + Show(rest));
  }

  predicate Ok(t: Nested, parens: bool) {
    match t
    case End => true
    case Plain(c, rest) => c != '\"' && !IsOpen(c, parens) && !IsClose(c, parens) && Ok(rest, parens)
    case Quoted(body, rest) => OkQuote(body) && Ok(rest, parens)
    case Group(open, inner, close, rest) =>
      IsOpen(open, parens) && IsClose(close, parens) && (open == '(' <==> close == ')') && Ok(inner, parens)
        && Ok(rest, parens)
  }

  // ---- the bracket that closing finds ------------------------------------------------------------------------

  lemma {:induction false} MatchSkipsQuote(q: Quote, s: string, depth: int) returns (n: nat)
    requires OkQuote(q)
    ensures n + |s| == |QuoteTo(q, ['\"'] + s)|
    ensures Match(QuoteTo(q, ['\"'] + s), depth, true) == Shift(Match(s, depth, false), n)
    decreases q
  {
    match q
    case Unit =>
      n := 1;
      assert (['\"'] + s)[1..] == s;
    case Char(c, more) =>
      n := MatchSkipsQuote(more, s, depth);
      assert QuoteTo(q, ['\"'] + s)[1..] == QuoteTo(more, ['\"'] + s);
      n := n + 1;
    case Escape(c, more) =>
      n := MatchSkipsQuote(more, s, depth);
      assert QuoteTo(q, ['\"'] + s)[2..] == QuoteTo(more, ['\"'] + s);
      n := n + 2;
  }

  lemma MatchStep(c: char, tail: string, depth: int)
    ensures
      Match([c] + tail, depth, false) ==
      if c == '\"' then Shift(Match(tail, depth, true), 1)
      else if IsOpen(c, false) then Shift(Match(tail, depth + 1, false), 1)
      else if IsClose(c, false) then (if depth == 1 then Some(0) else Shift(Match(tail, depth - 1, false), 1))
      else Shift(Match(tail, depth, false), 1)
  {
    assert ([c] + tail)[1..] == tail;
  }

  /** Nested text is passed over without the depth reaching zero. */
  lemma MatchSkipsQuoted(body: Quote, s: string, depth: nat) returns (n: nat)
    requires OkQuote(body) && depth > 0
    ensures
      var all := ['\"'] + QuoteTo(body, ['\"'] + s);
      n + |s| == |all| && Match(all, depth, false) == Shift(Match(s, depth, false), n)
  {
    var k := MatchSkipsQuote(body, s, depth);
    MatchStep('\"', QuoteTo(body, ['\"'] + s), depth);
    n := k + 1;
  }

  lemma {:induction false} MatchSkips(t: Nested, s: string, depth: nat) returns (n: nat)
    requires Ok(t, false) && depth > 0
    ensures n + |s| == |ShowTo(t, s)| && Match(ShowTo(t, s), depth, false) == Shift(Match(s, depth, false), n)
    decreases t, 1
  {
    match t
    case End =>
      n := 0;
    case Plain(c, rest) =>
      n := MatchSkips(rest, s, depth);
      MatchStep(c, ShowTo(rest, s), depth);
      n := n + 1;
    case Quoted(body, rest) =>
      n := MatchSkips(rest, s, depth);
      var k := MatchSkipsQuoted(body, ShowTo(rest, s), depth);
      n := n + k;
    case Group(open, inner, close, rest) =>
      n := MatchSkipsGroup(open, inner, close, rest, s, depth);
  }

  lemma {:induction false} MatchSkipsGroup(open: char, inner: Nested, close: char, rest: Nested, s: string, depth: nat)
    returns (n: nat)
    requires IsOpen(open, false) && IsClose(close, false) && Ok(inner, false) && Ok(rest, false) && depth > 0
    ensures
      var all := [open] + ShowTo(inner, [close] + ShowTo(rest, s));
      n + |s| == |all| && Match(all, depth, false) == Shift(Match(s, depth, false), n)
    decreases Group(open, inner, close, rest), 0
  {
    n := MatchSkips(rest, s, depth);
    var mid := [close] + ShowTo(rest, s);
    MatchStep(close, ShowTo(rest, s), depth + 1);
    var k := MatchSkips(inner, mid, depth + 1);
    MatchStep(open, ShowTo(inner, mid), depth);
    n := n + k + 2;
  }

  /** Read back a quote body: s is scanned inside quotes and the bracket is found in what follows. */
  lemma {:induction false} QuoteParts(s: string, depth: int) returns (q: Quote, rest: string)
    requires Match(s, depth, true).Some?
    ensures OkQuote(q) && s == QuoteTo(q, ['\"'] + rest) && |rest| < |s|
    ensures Match(s, depth, true) == Shift(Match(rest, depth, false), |s| - |rest|)
    decreases |s|
  {
    if s[0] == '\\' {
      q, rest := QuoteParts(s[2..], depth);
      q := Escape(s[1], q);
    } else if s[0] == '\"' {
      q, rest := Unit, s[1..];
    } else {
      q, rest := QuoteParts(s[1..], depth);
      q := Char(s[0], q);
    }
  }

  /** s is balanced text t, then a closing bracket, then rest; from depth 1 that bracket is the one found. */
  predicate SplitsAt(s: string, depth: nat, t: Nested, close: char, rest: string)
    requires depth > 0
  {
    && Ok(t, false) && IsClose(close, false) && s == ShowTo(t, [close] + rest) && |rest| < |s|
    && Match(s, depth, false)
       == if depth == 1 then Some(|s| - |rest| - 1) else Shift(Match(rest, depth - 1, false), |s| - |rest|)
  }

  lemma AfterGroup(s: string, depth: nat, inner: Nested, mid: char, tail: string, t: Nested, close: char, rest: string)
    requires depth > 0 && s != "" && IsOpen(s[0], false)
    requires SplitsAt(s[1..], depth + 1, inner, mid, tail) && SplitsAt(tail, depth, t, close, rest)
    ensures SplitsAt(s, depth, Group(s[0], inner, mid, t), close, rest)
  {
    assert s == [s[0]] + s[1..];
    MatchStep(s[0], s[1..], depth);
  }

  /** Read back nested text: what is scanned from depth 1 up to the bracket found is balanced. */
  lemma {:induction false} TextBefore(s: string, depth: nat) returns (t: Nested, close: char, rest: string)
    requires depth > 0 && Match(s, depth, false).Some?
    ensures SplitsAt(s, depth, t, close, rest)
    decreases |s|
  {
    var c, more := s[0], s[1..];
    assert s == [c] + more;
    MatchStep(c, more, depth);
    if c == '\"' {
      var q, tail := QuoteParts(more, depth);
      t, close, rest := TextBefore(tail, depth);
      t := Quoted(q, t);
    } else if IsOpen(c, false) {
      var inner, mid, tail := TextBefore(more, depth + 1);
      t, close, rest := TextBefore(tail, depth);
      AfterGroup(s, depth, inner, mid, tail, t, close, rest);
      t := Group(c, inner, mid, t);
    } else if IsClose(c, false) {
      t, close, rest := End, c, more;
    } else {
      t, close, rest := TextBefore(more, depth);
      t := Plain(c, t);
    }
  }

  lemma FoundIsBalanced(tail: string, n: nat) returns (t: Nested)
    requires Match(tail, 1, false) == Some(n)
    ensures n < |tail| && IsClose(tail[n], false) && Ok(t, false) && Show(t) == tail[..n]
  {
    var close, rest;
    t, close, rest := TextBefore(tail, 1);
    ShowToSplits(t, [close] + rest);
    assert tail[..|Show(t)|] == Show(t) && tail[|Show(t)|] == close;
  }

  lemma BalancedIsFound(tail: string, n: nat, t: Nested)
    requires n < |tail| && IsClose(tail[n], false) && Ok(t, false) && Show(t) == tail[..n]
    ensures Match(tail, 1, false) == Some(n)
  {
    var rest := tail[n..];
    ShowToSplits(t, rest);
    assert tail == tail[..n] + rest;
    var k := MatchSkips(t, rest, 1);
    assert rest == [tail[n]] + rest[1..];
    MatchStep(tail[n], rest[1..], 1);
  }

  /** closing finds the bracket at e exactly when a balanced text stands between the two. */
  lemma ClosingIsMatching(s: string, open: nat, e: nat)
    requires open < |s| && IsOpen(s[open], false)
    ensures Match(s[open..], 0, false) == Some(e) <==>
              0 < e < |s| - open && IsClose(s[open + e], false)
              && exists t :: Ok(t, false) && Show(t) == s[open + 1..open + e]
  {
    var tail := s[open + 1..];
    assert s[open..] == [s[open]] + tail;
    MatchStep(s[open], tail, 0);
    assert Match(s[open..], 0, false) == Shift(Match(tail, 1, false), 1);
    if Match(s[open..], 0, false) == Some(e) {
      var t := FoundIsBalanced(tail, e - 1);
      assert tail[..e - 1] == s[open + 1..open + e];
    }
    if 0 < e < |s| - open && IsClose(s[open + e], false) {
      forall t | Ok(t, false) && Show(t) == s[open + 1..open + e] ensures Match(s[open..], 0, false) == Some(e) {
        assert tail[..e - 1] == s[open + 1..open + e];
        BalancedIsFound(tail, e - 1, t);
      }
    }
  }

  // ---- the end of a value --------------------------------------------------------------------------------------

  /** No space outside brackets and quotes is followed by something that looks like a key. */
  predicate NoPairInside(t: Nested) {
    match t
    case End => true
    case Plain(c, rest) => !(c == ' ' && StartsPairSpec(Show(rest))) && NoPairInside(rest)
    case Quoted(_, rest) => NoPairInside(rest)
    case Group(_, _, _, rest) => NoPairInside(rest)
  }

  /** What may follow a value: nothing, or the space before the next pair. */
  predicate PairFollows(s: string) { s == "" || (s[0] == ' ' && StartsPairSpec(s[1..])) }

  lemma {:induction false} ValueSkipsQuote(q: Quote, s: string, depth: int) returns (n: nat)
    requires OkQuote(q)
    ensures n + |s| == |QuoteTo(q, ['\"'] + s)|
    ensures ValueLen(QuoteTo(q, ['\"'] + s), depth, true) == n + ValueLen(s, depth, false)
    decreases q
  {
    match q
    case Unit =>
      n := 1;
      assert (['\"'] + s)[1..] == s;
    case Char(c, more) =>
      n := ValueSkipsQuote(more, s, depth);
      assert QuoteTo(q, ['\"'] + s)[1..] == QuoteTo(more, ['\"'] + s);
      n := n + 1;
    case Escape(c, more) =>
      n := ValueSkipsQuote(more, s, depth);
      assert QuoteTo(q, ['\"'] + s)[2..] == QuoteTo(more, ['\"'] + s);
      n := n + 2;
  }

  lemma ValueStep(c: char, tail: string, depth: int)
    ensures
      ValueLen([c] + tail, depth, false) ==
      if c == '\"' then 1 + ValueLen(tail, depth, true)
      else if IsOpen(c, true) then 1 + ValueLen(tail, depth + 1, false)
      else if IsClose(c, true) then 1 + ValueLen(tail, depth - 1, false)
      else if c == ' ' && depth == 0 && StartsPairSpec(tail) then 0
      else 1 + ValueLen(tail, depth, false)
  {
    assert ([c] + tail)[1..] == tail;
  }

  lemma {:induction false} ValueSkips(t: Nested, s: string, depth: nat) returns (n: nat)
    requires Ok(t, true) && (depth == 0 ==> NoPairInside(t) && PairFollows(s))
    ensures n + |s| == |ShowTo(t, s)| && ValueLen(ShowTo(t, s), depth, false) == n + ValueLen(s, depth, false)
    decreases t, 1
  {
    match t
    case End =>
      n := 0;
    case Plain(c, rest) =>
      n := ValueSkips(rest, s, depth);
      if c == ' ' && depth == 0 { NotCutInside(rest, s); }
      ValueStep(c, ShowTo(rest, s), depth);
      n := n + 1;
    case Quoted(body, rest) =>
      n := ValueSkips(rest, s, depth);
      var k := ValueSkipsQuote(body, ShowTo(rest, s), depth);
      ValueStep('\"', QuoteTo(body, ['\"'] + ShowTo(rest, s)), depth);
      n := n + k + 1;
    case Group(open, inner, close, rest) =>
      n := ValueSkipsGroup(open, inner, close, rest, s, depth);
  }

  lemma {:induction false} ValueSkipsGroup(open: char, inner: Nested, close: char, rest: Nested, s: string, depth: nat)
    returns (n: nat)
    requires IsOpen(open, true) && IsClose(close, true) && Ok(inner, true) && Ok(rest, true)
    requires depth == 0 ==> NoPairInside(rest) && PairFollows(s)
    ensures
      var all := [open] + ShowTo(inner, [close] + ShowTo(rest, s));
      n + |s| == |all| && ValueLen(all, depth, false) == n + ValueLen(s, depth, false)
    decreases Group(open, inner, close, rest), 0
  {
    n := ValueSkips(rest, s, depth);
    var mid := [close] + ShowTo(rest, s);
    ValueStep(close, ShowTo(rest, s), depth + 1);
    var k := ValueSkips(inner, mid, depth + 1);
    ValueStep(open, ShowTo(inner, mid), depth);
    n := n + k + 2;
  }

  lemma NotCutInside(rest: Nested, s: string)
    requires !StartsPairSpec(Show(rest)) && PairFollows(s)
    ensures !StartsPairSpec(ShowTo(rest, s))
  {
    ShowToSplits(rest, s);
    PairNotCut(Show(rest), s);
  }

  /** Text that starts no pair starts none when a value ends after it. */
  lemma PairNotCut(x: string, s: string)
    requires !StartsPairSpec(x) && PairFollows(s)
    ensures !StartsPairSpec(x + s)
  {
    if s == "" {
      assert x + s == x;
    } else {
      var i, j := IndexOf(x + s, ':'), IndexOf(x, ':');
      assert (x + s)[|x|] == ' ';
      if 0 <= i < |x| {
        assert x[..i] == (x + s)[..i] && x[i] == ':';
        IndexAfter(x[..i], ':', x[i + 1..]);
        assert x == x[..i] + [':'] + x[i + 1..];
        assert forall k :: 0 <= k < i ==> x[k] == (x + s)[k];
      }
    }
  }

  // ---- parsing undoes printing -----------------------------------------------------------------------------------

  /** A key and the nested text of its value. */
  datatype Pair = Pair(key: string, val: Nested)

  predicate OkKey(k: string) { k != "" && forall c <- k :: IsKeyChar(c) }

  /** What the printer of the old form produced for one map entry. */
  ghost predicate OkPair(p: Pair) {
    && OkKey(p.key) && IsTrimmed(Show(p.val)) && Ok(p.val, true) && NoPairInside(p.val)
  }

  /** fmt prints the pairs of a map with single spaces between them. */
  function PrintPairs(ps: seq<Pair>): string
    decreases |ps|, 1
  {
    if ps == [] then "" else ps[0].key + [':'] + (Show(ps[0].val) + MorePairs(ps))
  }

  function MorePairs(ps: seq<Pair>): string
    requires ps != []
    decreases |ps|, 0
  {
    if |ps| == 1 then "" else " " + PrintPairs(ps[1..])
  }

  /** The map that the pairs make, a later key replacing an earlier one. */
  function MapOf<V>(parse: string -> Option<V>, ps: seq<Pair>, acc: map<string, V>): Option<map<string, V>> {
    if ps == [] then Some(acc)
    else
      var v := parse(Show(ps[0].val));
      if v.None? then None else MapOf(parse, ps[1..], acc[ps[0].key := v.value])
  }

  lemma PrintedPairsEdges(ps: seq<Pair>)
    requires ps != [] && forall p <- ps :: OkPair(p)
    ensures IsTrimmed(PrintPairs(ps)) && StartsPairSpec(PrintPairs(ps)) && PrintPairs(ps)[0] != ' '
  {
    var p, s := ps[0], PrintPairs(ps);
    assert OkPair(p);
    var tail := Show(p.val) + MorePairs(ps);
    KeyFirst(p.key, tail);
    if |ps| > 1 {
      PrintedPairsEdges(ps[1..]);
      assert s[|s| - 1] == PrintPairs(ps[1..])[|PrintPairs(ps[1..])| - 1];
    } else if Show(p.val) == "" {
      assert s[|s| - 1] == ':';
    } else {
      assert s[|s| - 1] == Show(p.val)[|Show(p.val)| - 1];
    }
  }

  lemma KeyFirst(key: string, tail: string)
    requires OkKey(key)
    ensures
      var s := key + [':'] + tail;
      IndexOf(s, ':') == |key| && StartsPairSpec(s) && s[..|key|] == key && s[|key| + 1..] == tail && IsKeyChar(s[0])
  {
    IndexAfter(key, ':', tail);
  }

  lemma ValueStops(more: string)
    requires PairFollows(more)
    ensures ValueLen(more, 0, false) == 0
  {}

  lemma SliceAt(a: string, b: string, s: string)
    requires s == a + b
    ensures s[..|a|] == a && s[|a|..] == b
  {}

  lemma ValueCut(val: Nested, more: string)
    requires Ok(val, true) && NoPairInside(val) && PairFollows(more)
    ensures
      var s := Show(val) + more;
      ValueLen(s, 0, false) == |Show(val)| && s[..|Show(val)|] == Show(val) && s[|Show(val)|..] == more
  {
    ShowToSplits(val, more);
    var n := ValueSkips(val, more, 0);
    ValueStops(more);
    SliceAt(Show(val), more, Show(val) + more);
  }

  /** The parse takes the first pair off and goes on with the text after it. */
  lemma PairStep<V>(parse: string -> Option<V>, p: Pair, more: string, acc: map<string, V>)
    requires OkPair(p) && PairFollows(more)
    ensures
      var v := parse(Show(p.val));
      PairsFrom(parse, p.key + [':'] + (Show(p.val) + more), acc)
        == if v.None? then None else Pairs(parse, more, acc[p.key := v.value])
  {
    KeyFirst(p.key, Show(p.val) + more);
    ValueCut(p.val, more);
    TrimmedStays(Show(p.val));
  }

  lemma MorePairsFollow(ps: seq<Pair>)
    requires ps != [] && forall p <- ps :: OkPair(p)
    ensures PairFollows(MorePairs(ps)) && Trim(MorePairs(ps)) == PrintPairs(ps[1..])
    ensures PrintPairs(ps) == ps[0].key + [':'] + (Show(ps[0].val) + MorePairs(ps))
  {
    if |ps| > 1 {
      PrintedPairsEdges(ps[1..]);
      TrimSpaceBefore(PrintPairs(ps[1..]));
      assert MorePairs(ps)[1..] == PrintPairs(ps[1..]);
    } else {
      assert ps[1..] == [];
      TrimmedStays("");
    }
  }

  /** Printed pairs are read back as exactly the same keys with exactly the same value texts. */
  lemma {:induction false} PairsUndoPrint<V>(parse: string -> Option<V>, ps: seq<Pair>, acc: map<string, V>)
    requires forall p <- ps :: OkPair(p)
    ensures PairsFrom(parse, PrintPairs(ps), acc) == MapOf(parse, ps, acc)
    decreases |ps|
  {
    if ps != [] {
      var p := ps[0];
      assert OkPair(p);
      MorePairsFollow(ps);
      PairStep(parse, p, MorePairs(ps), acc);
      if parse(Show(p.val)).Some? {
        PairsUndoPrint(parse, ps[1..], acc[p.key := parse(Show(p.val)).value]);
      }
    }
  }

  /** The printed pairs are themselves nested text to the bracket scanner, which ignores parentheses. */
  lemma PairsNest(ps: seq<Pair>) returns (t: Nested)
    requires forall p <- ps :: OkPair(p)
    ensures Ok(t, false) && Show(t) == PrintPairs(ps)
    decreases |ps|
  {
    if ps == [] {
      t := End;
    } else {
      var p := ps[0];
      assert OkPair(p);
      var tail := End;
      if |ps| > 1 {
        tail := PairsNest(ps[1..]);
        tail := Plain(' ', tail);
      }
      t := Flatten(p.val, tail);
      ShowToSplits(p.val, Show(tail));
      t := Plain(':', t);
      assert Show(t) == ":" + (Show(p.val) + Show(tail));
      t := Spell(p.key, t);
    }
  }

  lemma {:induction false} Spell(key: string, t: Nested) returns (r: Nested)
    requires (forall c <- key :: IsKeyChar(c)) && Ok(t, false)
    ensures Ok(r, false) && Show(r) == key + Show(t)
    decreases |key|
  {
    if key == "" {
      r := t;
    } else {
      assert key[0] in key;
      r := Spell(key[1..], t);
      r := Plain(key[0], r);
    }
  }

  /** Parentheses read as plain characters: the same text, with tail printed after it. */
  lemma {:induction false} Flatten(t: Nested, tail: Nested) returns (r: Nested)
    requires Ok(t, true) && Ok(tail, false)
    ensures Ok(r, false) && Show(r) == ShowTo(t, Show(tail))
    decreases t
  {
    match t
    case End => r := tail;
    case Plain(c, rest) =>
      r := Flatten(rest, tail);
      r := Plain(c, r);
    case Quoted(body, rest) =>
      r := Flatten(rest, tail);
      r := Quoted(body, r);
    case Group(open, inner, close, rest) =>
      r := Flatten(rest, tail);
      if open == '(' {
        r := Flatten(inner, Plain(')', r));
        r := Plain('(', r);
      } else {
        ghost var after := r;
        r := Flatten(inner, End);
        ShowToSplits(inner, [close] + Show(after));
        ShowToSplits(r, [close] + Show(after));
        r := Group(open, r, close, after);
      }
  }

  /** A printed list of maps, without the brackets around it. */
  function PrintMaps(ms: seq<seq<Pair>>): string
    decreases |ms|, 1
  {
    if ms == [] then "" else "map[" + PrintPairs(ms[0]) + "]" + MoreMaps(ms)
  }

  function MapsOf<V>(parse: string -> Option<V>, ms: seq<seq<Pair>>): Option<seq<map<string, V>>> {
    if ms == [] then Some([])
    else
      var m := MapOf(parse, ms[0], map[]);
      if m.None? then None else Prepend([m.value], MapsOf(parse, ms[1..]))
  }

  lemma PrintedMapsEdges(ms: seq<seq<Pair>>)
    ensures IsTrimmed(PrintMaps(ms))
  {
    if ms != [] {
      var s, head := PrintMaps(ms), "map[" + PrintPairs(ms[0]) + "]";
      assert s == head + MoreMaps(ms) && head[0] == 'm' && head[|head| - 1] == ']';
      if |ms| == 1 {
        assert s == head;
      } else {
        PrintedMapsEdges(ms[1..]);
        var more := PrintMaps(ms[1..]);
        assert more == "map[" + PrintPairs(ms[1]) + "]" + MoreMaps(ms[1..]) && more != "";
        assert s[|s| - 1] == more[|more| - 1];
      }
    }
  }

  lemma MapSlices(p: string, more: string)
    ensures
      var s := "map[" + p + "]" + more;
      "map[" <= s && s[3..] == "[" + (p + ("]" + more)) && s[4..4 + |p|] == p && s[4 + |p| + 1..] == more
  {}

  lemma GroupMatches(t: Nested, more: string)
    requires Ok(t, false)
    ensures Match("[" + (Show(t) + ("]" + more)), 0, false) == Some(|Show(t)| + 1)
  {
    var body := "]" + more;
    ShowToSplits(t, body);
    var n := MatchSkips(t, body, 1);
    assert body[0] == ']' && ("[" + (Show(t) + body))[1..] == Show(t) + body;
  }

  lemma MapCut(ps: seq<Pair>, more: string)
    requires forall p <- ps :: OkPair(p)
    ensures
      var s, n := "map[" + PrintPairs(ps) + "]" + more, |PrintPairs(ps)|;
      && "map[" <= s && Match(s[3..], 0, false) == Some(n + 1)
      && s[4..4 + n] == PrintPairs(ps) && s[4 + n + 1..] == more
  {
    var t := PairsNest(ps);
    MapSlices(PrintPairs(ps), more);
    GroupMatches(t, more);
  }

  lemma PairsRead<V>(parse: string -> Option<V>, ps: seq<Pair>)
    requires forall p <- ps :: OkPair(p)
    ensures Pairs(parse, PrintPairs(ps), map[]) == MapOf(parse, ps, map[])
  {
    PairsUndoPrint(parse, ps, map[]);
    if ps != [] { PrintedPairsEdges(ps); }
    TrimmedStays(PrintPairs(ps));
  }

  lemma MapStep<V>(parse: string -> Option<V>, s: string, body: string, m: Option<map<string, V>>, more: string)
    requires "map[" <= s && |s| > 4 + |body| && Match(s[3..], 0, false) == Some(|body| + 1)
    requires s[4..4 + |body|] == body && s[4 + |body| + 1..] == more && Pairs(parse, body, map[]) == m
    ensures MapsFrom(parse, s) == if m.None? then None else Prepend([m.value], MapsSpec(parse, more))
  {}

  function MoreMaps(ms: seq<seq<Pair>>): string
    requires ms != []
    decreases |ms|, 0
  {
    if |ms| == 1 then "" else " " + PrintMaps(ms[1..])
  }

  lemma MoreMapsFollow(ms: seq<seq<Pair>>)
    requires ms != []
    ensures Trim(MoreMaps(ms)) == PrintMaps(ms[1..])
  {
    PrintedMapsEdges(ms[1..]);
    if |ms| > 1 {
      TrimSpaceBefore(PrintMaps(ms[1..]));
    } else {
      assert ms[1..] == [];
      TrimmedStays("");
    }
  }

  /** The first printed map is read off, and the text after it is read on its own. */
  lemma FirstMapRead<V>(parse: string -> Option<V>, ms: seq<seq<Pair>>)
    requires ms != [] && forall p <- ms[0] :: OkPair(p)
    ensures
      var m := MapOf(parse, ms[0], map[]);
      MapsFrom(parse, PrintMaps(ms))
        == if m.None? then None else Prepend([m.value], MapsFrom(parse, PrintMaps(ms[1..])))
  {
    MapCut(ms[0], MoreMaps(ms));
    PairsRead(parse, ms[0]);
    MapStep(parse, PrintMaps(ms), PrintPairs(ms[0]), MapOf(parse, ms[0], map[]), MoreMaps(ms));
    MoreMapsFollow(ms);
  }

  /** Reading undoes printing: exactly the printed maps, with exactly the printed value texts. */
  lemma {:induction false} MapsUndoPrint<V>(parse: string -> Option<V>, ms: seq<seq<Pair>>)
    requires forall ps <- ms, p <- ps :: OkPair(p)
    ensures MapsFrom(parse, PrintMaps(ms)) == MapsOf(parse, ms)
    decreases |ms|
  {
    if ms != [] {
      assert forall p <- ms[0] :: OkPair(p);
      FirstMapRead(parse, ms);
      MapsUndoPrint(parse, ms[1..]);
    }
  }

  /** A list of strings survives exactly when they are non-empty, have no space and no quote at an end. */
  lemma StringsUndoPrint(ws: seq<string>)
    ensures StringsSpec(Join(ws)) == ws <==> forall w <- ws :: w != "" && NoSpace(w) && !QuoteEdged(w)
  {
    var fs := Fields(Join(ws));
    if forall w <- ws :: NoSpace(w) {
      FieldsOfJoin(ws);
      if "" !in ws {
        assert fs == ws;
        if forall w <- ws :: !QuoteEdged(w) {
          assert forall i :: 0 <= i < |ws| ==> Unquote(fs[i]) == ws[i];
        } else {
          var w :| w in ws && QuoteEdged(w);
          var i :| 0 <= i < |ws| && ws[i] == w;
          assert StringsSpec(Join(ws))[i] == Unquote(w);
        }
      }
    } else {
      FieldsHaveNoSpace("", Join(ws));
      var w :| w in ws && !NoSpace(w);
      if StringsSpec(Join(ws)) == ws {
        var i :| 0 <= i < |ws| && ws[i] == w;
        assert ws[i] == Unquote(fs[i]);
        UnquoteNoSpace(fs[i]);
      }
    }
  }

  /** Quotes around a string that has none at its ends are taken off. */
  lemma UnquoteQuoted(w: string)
    requires !QuoteEdged(w)
    ensures Unquote("\"" + w + "\"") == w
  {
    var s := "\"" + w + "\"";
    assert s[1..] == w + "\"";
    if w == "" {
      assert s[1..] == "\"" && (w + "\"")[1..] == "";
    } else {
      assert (w + "\"")[..|w|] == w && (w + "\"")[0] == w[0];
    }
  }

  /** Words that spell strings, bare or in quotes, are read as those strings. */
  lemma SpelledStrings(ws: seq<string>, fs: seq<string>)
    requires |fs| == |ws| && forall i :: 0 <= i < |ws| ==> fs[i] == ws[i] || fs[i] == "\"" + ws[i] + "\""
    requires (forall w <- ws :: !QuoteEdged(w)) && forall f <- fs :: f != "" && NoSpace(f)
    ensures StringsSpec(Join(fs)) == ws
  {
    FieldsOfJoin(fs);
    assert NonEmpty(fs) == fs;
    forall i | 0 <= i < |ws| ensures StringsSpec(Join(fs))[i] == ws[i] {
      assert ws[i] in ws;
      UnquoteQuoted(ws[i]);
    }
  }

  /** What is no list of pairs or maps is refused: no key, or nothing that opens a map that closes again. */
  lemma Refused<V>(parse: string -> Option<V>, t: string, acc: map<string, V>)
    requires t != ""
    ensures ':' !in t || t[0] == ':' ==> PairsFrom(parse, t, acc) == None
    ensures !("map[" <= t) || Match(t[3..], 0, false).None? ==> MapsFrom(parse, t) == None
  {}

  lemma {:induction false} UnquoteNoSpace(s: string)
    requires NoSpace(s)
    ensures NoSpace(Unquote(s))
    decreases |s|
  {
    if s != "" {
      if s[0] == '\"' {
        UnquoteNoSpace(s[1..]);
      } else if s[|s| - 1] == '\"' {
        UnquoteNoSpace(s[..|s| - 1]);
      }
    }
  }

  // ---- the characters that matter ----------------------------------------------------------------------------

  lemma KeyCharacters(c: char)
    ensures IsKeyChar(c) <==> c in "abcdefghijklmnopqrstuvwxyz0123456789-_"
  {}

  lemma BracketCharacters(c: char)
    ensures IsOpen(c, true) <==> c in "[<{("
    ensures IsClose(c, true) <==> c in "]>})"
    ensures IsOpen(c, false) <==> c in "[<{"
    ensures IsClose(c, false) <==> c in "]>}"
  {}

  /** White space around a value is not part of it. */
  lemma ValueTrimmed<V>(parse: string -> Option<V>, key: string, raw: string, acc: map<string, V>)
    requires OkKey(key) && ValueLen(raw, 0, false) == |raw|
    ensures
      var v := parse(Trim(raw));
      PairsFrom(parse, key + [':'] + raw, acc) == if v.None? then None else Some(acc[key := v.value])
  {
    KeyFirst(key, raw);
    assert raw[..|raw|] == raw && raw[|raw|..] == "";
    TrimmedStays("");
  }

  /** A pair starts where a key, not empty, is followed by a colon. */
  lemma StartsPairExactly(s: string)
    ensures StartsPairSpec(s) <==> exists key, rest :: OkKey(key) && s == key + [':'] + rest
  {
    var i := IndexOf(s, ':');
    if StartsPairSpec(s) {
      assert s == s[..i] + [':'] + s[i + 1..];
      assert OkKey(s[..i]);
    }
    forall key, rest | OkKey(key) && s == key + [':'] + rest ensures StartsPairSpec(s) {
      KeyFirst(key, rest);
    }
  }
}
