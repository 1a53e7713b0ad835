/** The handful of Python `str` operations the inventory and report code
    relies on, written out so that their edge cases are explicit:
    `isspace`, `strip`, `find`/`in`, `split(sep)`, `split()`, `lower()`
    on ASCII, and `int()` on a single token. */
module Text {
  import opened Base

  /** Python's `str.isspace()` for a single character. */
  predicate IsSpace(c: char) {
    || c == ' '
    || ('\t' <= c <= '\r')
    || ('\U{1c}' <= c <= '\U{1f}')
    || c == '\U{85}' || c == '\U{a0}' || c == '\U{1680}'
    || ('\U{2000}' <= c <= '\U{200a}')
    || c == '\U{2028}' || c == '\U{2029}' || c == '\U{202f}'
    || c == '\U{205f}' || c == '\U{3000}'
  }

  predicate NotSpace(c: char) { !IsSpace(c) }

  predicate IsDigit(c: char) { '0' <= c <= '9' }

  /* ---------------- occurrences ---------------- */

  /** `sub` occurs in `s` starting at index `i`. */
  predicate OccursAt(s: string, sub: string, i: int) {
    0 <= i && i + |sub| <= |s| && s[i..i + |sub|] == sub
  }

  /** Python `s.find(sub, start)`: the first occurrence at or after `start`. */
  function FindFrom(s: string, sub: string, start: nat): (r: Option<nat>)
    requires start <= |s|
    ensures r.Some? ==> start <= r.value && OccursAt(s, sub, r.value)
    ensures r.Some? ==> forall j :: start <= j < r.value ==> !OccursAt(s, sub, j)
    ensures r.None? ==> forall j :: start <= j ==> !OccursAt(s, sub, j)
    decreases |s| - start
  {
    if start + |sub| > |s| then None
    else if s[start..start + |sub|] == sub then Some(start)
    else FindFrom(s, sub, start + 1)
  }

  /** Python `s.find(sub)`, with `None` for -1. */
  function Find(s: string, sub: string): Option<nat> {
    FindFrom(s, sub, 0)
  }

  /** Python `sub in s`. */
  predicate Contains(s: string, sub: string) {
    Find(s, sub).Some?
  }

  /** `Contains` holds exactly when `sub` occurs somewhere in `s`. */
  lemma ContainsMeansOccurs(s: string, sub: string)
    ensures Contains(s, sub) <==> exists i :: OccursAt(s, sub, i)
  {
    if Contains(s, sub) {
      assert OccursAt(s, sub, Find(s, sub).value);
    }
  }

  /** A string occurs in any string that has it as a prefix. */
  lemma ContainsPrefix(s: string, sub: string)
    requires sub <= s
    ensures Contains(s, sub)
  {
    assert OccursAt(s, sub, 0);
    ContainsMeansOccurs(s, sub);
  }

  /** A string occurs in any string that ends with it. */
  lemma ContainsSuffix(pre: string, sub: string)
    ensures Contains(pre + sub, sub)
  {
    var s := pre + sub;
    assert s[|pre|..|pre| + |sub|] == sub;
    assert OccursAt(s, sub, |pre|);
    ContainsMeansOccurs(s, sub);
  }

  /** A string without `c` does not contain the one-character string `[c]`. */
  lemma NotContainsChar(s: string, c: char)
    requires c !in s
    ensures !Contains(s, [c])
  {
    forall i | 0 <= i && i + 1 <= |s|
      ensures !OccursAt(s, [c], i)
    {
      assert s[i..i + 1][0] == s[i];
      assert s[i] in s;
    }
    ContainsMeansOccurs(s, [c]);
  }

  /* ---------------- strip ---------------- */

  /** Number of leading characters of `s` that `drop` accepts. */
  function LeadingCount(s: string, drop: char -> bool): (n: nat)
    ensures n <= |s|
    ensures forall k :: 0 <= k < n ==> drop(s[k])
    ensures n < |s| ==> !drop(s[n])
  {
    if |s| == 0 || !drop(s[0]) then 0 else 1 + LeadingCount(s[1..], drop)
  }

  /** Number of trailing characters of `s` that `drop` accepts. */
  function TrailingCount(s: string, drop: char -> bool): (n: nat)
    ensures n <= |s|
    ensures forall k :: |s| - n <= k < |s| ==> drop(s[k])
    ensures n < |s| ==> !drop(s[|s| - 1 - n])
  {
    if |s| == 0 || !drop(s[|s| - 1]) then 0 else 1 + TrailingCount(s[..|s| - 1], drop)
  }

  /** `r` is the infix of `s` starting at `i`, and everything outside it is dropped. */
  predicate StrippedAt(s: string, r: string, i: int, drop: char -> bool) {
    && 0 <= i <= |s| - |r| && r == s[i..i + |r|]
    && (forall k :: 0 <= k < i ==> drop(s[k]))
    && (forall k :: i + |r| <= k < |s| ==> drop(s[k]))
  }

  /** Python `s.strip(chars)`: the infix left after removing the longest
      prefix and the longest suffix made only of dropped characters. */
  function StripBy(s: string, drop: char -> bool): (r: string)
    ensures exists i :: StrippedAt(s, r, i, drop)
    ensures |r| > 0 ==> !drop(r[0]) && !drop(r[|r| - 1])
  {
    var n := LeadingCount(s, drop);
    var t := s[n..];
    var m := TrailingCount(t, drop);
    var r := t[..|t| - m];
    assert r == s[n..n + |r|];
    assert forall k :: n + |r| <= k < |s| ==> drop(s[k]) by {
      forall k | n + |r| <= k < |s| ensures drop(s[k]) {
        assert s[k] == t[k - n];
      }
    }
    assert StrippedAt(s, r, n, drop);
    r
  }

  /** Stripping undoes padding: surrounding a core that neither starts nor
      ends with a dropped character by dropped characters, then stripping,
      gives the core back. */
  lemma StripByPadded(pre: string, core: string, post: string, drop: char -> bool)
    requires forall k :: 0 <= k < |pre| ==> drop(pre[k])
    requires forall k :: 0 <= k < |post| ==> drop(post[k])
    requires |core| > 0 ==> !drop(core[0]) && !drop(core[|core| - 1])
    ensures StripBy(pre + core + post, drop) == core
  {
    var s := pre + core + post;
    if |core| == 0 {
      assert s == (pre + post) + "";
      LeadingCountOfRun(pre + post, "", drop);
      assert s[|s|..] == "";
    } else {
      assert s == pre + (core + post);
      LeadingCountOfRun(pre, core + post, drop);
      var t := s[|pre|..];
      assert t == core + post;
      TrailingCountOfRun(core, post, drop);
      assert t[..|t| - |post|] == core;
    }
  }

  lemma {:induction false} LeadingCountOfRun(a: string, b: string, drop: char -> bool)
    requires forall k :: 0 <= k < |a| ==> drop(a[k])
    requires |b| > 0 ==> !drop(b[0])
    ensures LeadingCount(a + b, drop) == |a|
    decreases |a|
  {
    var s := a + b;
    if |a| == 0 {
      assert s == b;
    } else {
      assert s[0] == a[0] && drop(a[0]);
      var tail := a[1..];
      assert forall k :: 0 <= k < |tail| ==> drop(tail[k]) by {
        forall k | 0 <= k < |tail| ensures drop(tail[k]) {
          assert tail[k] == a[k + 1];
        }
      }
      assert s[1..] == tail + b;
      LeadingCountOfRun(tail, b, drop);
    }
  }

  lemma TrailingCountOfRun(a: string, b: string, drop: char -> bool)
    requires |a| > 0 ==> !drop(a[|a| - 1])
    requires forall k :: 0 <= k < |b| ==> drop(b[k])
    ensures TrailingCount(a + b, drop) == |b|
    decreases |b|
  {
    if |b| > 0 {
      assert (a + b)[..|a + b| - 1] == a + b[..|b| - 1];
      TrailingCountOfRun(a, b[..|b| - 1], drop);
    } else {
      assert a + b == a;
    }
  }

  /** Python `s.strip()` with no argument. */
  function Strip(s: string): string {
    StripBy(s, IsSpace)
  }

  predicate IsQuote(c: char) { c == '"' }

  /** Python `s.strip('"')`. */
  function StripQuotes(s: string): string {
    StripBy(s, IsQuote)
  }

  /** Python `s.split(c)[0]`: the text before the first `c`, or all of `s`. */
  function Before(s: string, c: char): (r: string)
    ensures r <= s
    ensures c !in r
    ensures |r| < |s| ==> s[|r|] == c
  {
    if |s| == 0 || s[0] == c then "" else [s[0]] + Before(s[1..], c)
  }

  /** The text before the first `c` of `v + [c] + tail` is `v`. */
  lemma {:induction false} BeforeFirst(v: string, c: char, tail: string)
    requires c !in v
    ensures Before(v + [c] + tail, c) == v
  {
    if |v| > 0 {
      assert (v + [c] + tail)[1..] == v[1..] + [c] + tail;
      assert v[0] in v;
      assert forall x :: x in v[1..] ==> x in v;
      BeforeFirst(v[1..], c, tail);
      assert [v[0]] + v[1..] == v;
    }
  }

  /* ---------------- split ---------------- */

  /** Joins at least one part with the separator between consecutive parts. */
  function JoinWith(parts: seq<string>, sep: char): string
    requires |parts| >= 1
  {
    if |parts| == 1 then parts[0] else parts[0] + [sep] + JoinWith(parts[1..], sep)
  }

  /** Python `s.split(sep)` for a one-character separator: the maximal
      pieces between separators, empty pieces included. */
  function SplitOn(s: string, sep: char): (r: seq<string>)
    ensures |r| >= 1
    ensures forall i :: 0 <= i < |r| ==> sep !in r[i]
    ensures JoinWith(r, sep) == s
  {
    if |s| == 0 then [""]
    else
      var rest := SplitOn(s[1..], sep);
      if s[0] == sep then
        assert ([""] + rest)[1..] == rest;
        [""] + rest
      else
        var r := [[s[0]] + rest[0]] + rest[1..];
        assert forall i :: 1 <= i < |r| ==> r[i] == rest[i];
        JoinCons(s[0], rest, sep);
        r
  }

  /** Prepending a character to the first part prepends it to the join. */
  lemma JoinCons(c: char, parts: seq<string>, sep: char)
    requires |parts| >= 1
    ensures JoinWith([[c] + parts[0]] + parts[1..], sep) == [c] + JoinWith(parts, sep)
  {
    var q := [[c] + parts[0]] + parts[1..];
    if |parts| > 1 {
      assert q[1..] == parts[1..];
    }
  }

  /** `split` inverts `join`: splitting a join of separator-free parts gives
      the parts back. */
  lemma {:induction false} SplitJoin(parts: seq<string>, sep: char)
    requires |parts| >= 1
    requires forall i :: 0 <= i < |parts| ==> sep !in parts[i]
    ensures SplitOn(JoinWith(parts, sep), sep) == parts
    decreases |JoinWith(parts, sep)|
  {
    var p := parts[0];
    if |p| > 0 {
      var q := [p[1..]] + parts[1..];
      assert forall i :: 0 <= i < |q| ==> sep !in q[i] by {
        forall i | 0 <= i < |q| ensures sep !in q[i] {
          if i == 0 {
            assert forall c :: c in p[1..] ==> c in p;
          } else {
            assert q[i] == parts[i];
          }
        }
      }
      assert [p[0]] + q[0] == p;
      assert q[1..] == parts[1..];
      JoinCons(p[0], q, sep);
      assert JoinWith(parts, sep) == [p[0]] + JoinWith(q, sep) by {
        assert [[p[0]] + q[0]] + q[1..] == parts;
      }
      SplitJoin(q, sep);
      var s := JoinWith(parts, sep);
      assert s[1..] == JoinWith(q, sep);
      assert s[0] == p[0];
      assert p[0] in p;
      var rest := SplitOn(s[1..], sep);
      assert rest == q;
      assert [[s[0]] + rest[0]] + rest[1..] == parts;
    } else if |parts| > 1 {
      var s := JoinWith(parts, sep);
      assert s == [sep] + JoinWith(parts[1..], sep);
      assert s[1..] == JoinWith(parts[1..], sep);
      SplitJoin(parts[1..], sep);
      assert [""] + parts[1..] == parts;
    }
  }

  /** Python `s.split(sep, 1)` when it yields two parts: the text before and
      after the first separator; `None` when `sep` does not occur. */
  function SplitFirst(s: string, sep: char): (r: Option<(string, string)>)
    ensures r.None? <==> sep !in s
    ensures r.Some? ==> r.value.0 + [sep] + r.value.1 == s && sep !in r.value.0
  {
    var head := Before(s, sep);
    if |head| == |s| then
      assert head == s;
      None
    else
      assert s == head + [sep] + s[|head| + 1..];
      Some((head, s[|head| + 1..]))
  }

  /* ---------------- split() on whitespace ---------------- */

  /** Python `s.split()` with no argument: the maximal runs of non-space
      characters, in order. */
  function Words(s: string): (r: seq<string>)
    ensures forall i :: 0 <= i < |r| ==> |r[i]| > 0
    ensures forall i, k :: 0 <= i < |r| && 0 <= k < |r[i]| ==> !IsSpace(r[i][k])
    decreases |s|
  {
    if |s| == 0 then []
    else if IsSpace(s[0]) then Words(s[1..])
    else
      var n := LeadingCount(s, NotSpace);
      [s[..n]] + Words(s[n..])
  }

  predicate IsToken(t: string) {
    |t| > 0 && forall k :: 0 <= k < |t| ==> !IsSpace(t[k])
  }

  /** Nothing but whitespace, possibly nothing at all. */
  predicate IsBlank(g: string) {
    forall k :: 0 <= k < |g| ==> IsSpace(g[k])
  }

  /** Tokens laid out with the whitespace `gaps` around them: `gaps[0]`
      before the first token, `gaps[i]` between tokens `i - 1` and `i`,
      the last gap after the last token. */
  function Spread(ts: seq<string>, gaps: seq<string>): string
    requires |gaps| == |ts| + 1
  {
    if |ts| == 0 then gaps[0] else gaps[0] + ts[0] + Spread(ts[1..], gaps[1..])
  }

  /** Whitespace laid out around tokens: blank gaps, and a non-empty one
      between any two tokens. */
  predicate WellSpread(ts: seq<string>, gaps: seq<string>) {
    && |gaps| == |ts| + 1
    && (forall i :: 0 <= i < |ts| ==> IsToken(ts[i]))
    && (forall i :: 0 <= i < |gaps| ==> IsBlank(gaps[i]))
    && (forall i :: 0 < i < |ts| ==> |gaps[i]| > 0)
  }

  /** `split()` recovers the tokens whatever whitespace surrounds and
      separates them: leading and trailing runs, the newline `readline`
      keeps, several spaces or tabs between tokens. */
  lemma {:induction false} WordsSpread(ts: seq<string>, gaps: seq<string>)
    requires WellSpread(ts, gaps)
    ensures Words(Spread(ts, gaps)) == ts
  {
    if |ts| == 0 {
      WordsBlank(gaps[0], "");
      assert gaps[0] + "" == gaps[0];
    } else {
      var rest := Spread(ts[1..], gaps[1..]);
      SpreadTail(ts, gaps);
      WordsSpread(ts[1..], gaps[1..]);
      assert Spread(ts, gaps) == gaps[0] + (ts[0] + rest);
      WordsBlank(gaps[0], ts[0] + rest);
      WordsToken(ts[0], rest);
      assert [ts[0]] + ts[1..] == ts;
    }
  }

  /** What follows the first token of a spread is itself a spread, and it
      is empty or starts with whitespace. */
  lemma SpreadTail(ts: seq<string>, gaps: seq<string>)
    requires WellSpread(ts, gaps) && |ts| > 0
    ensures WellSpread(ts[1..], gaps[1..])
    ensures var rest := Spread(ts[1..], gaps[1..]);
      |rest| > 0 ==> IsSpace(rest[0])
  {
    assert forall i :: 0 <= i < |ts| - 1 ==> ts[1..][i] == ts[i + 1];
    assert forall i :: 0 <= i < |gaps| - 1 ==> gaps[1..][i] == gaps[i + 1];
    var rest := Spread(ts[1..], gaps[1..]);
    if |ts| > 1 {
      assert rest == gaps[1] + (ts[1] + Spread(ts[2..], gaps[2..]));
      assert rest[0] == gaps[1][0];
    } else {
      assert rest == gaps[1];
    }
  }

  /** Leading whitespace does not change `split()`. */
  lemma {:induction false} WordsBlank(g: string, s: string)
    requires IsBlank(g)
    ensures Words(g + s) == Words(s)
    decreases |g|
  {
    if |g| == 0 {
      assert g + s == s;
    } else {
      assert (g + s)[0] == g[0];
      assert (g + s)[1..] == g[1..] + s;
      WordsBlank(g[1..], s);
    }
  }

  /** A token followed by whitespace or by nothing is one word. */
  lemma WordsToken(t: string, rest: string)
    requires IsToken(t)
    requires |rest| > 0 ==> IsSpace(rest[0])
    ensures Words(t + rest) == [t] + Words(rest)
  {
    var s := t + rest;
    LeadingCountOfRun(t, rest, NotSpace);
    assert s[..|t|] == t;
    assert s[|t|..] == rest;
  }

  /* ---------------- case ---------------- */

  function LowerChar(c: char): char {
    if 'A' <= c <= 'Z' then (c as int + 32) as char else c
  }

  /** Python `s.lower()` restricted to ASCII letters. */
  function Lower(s: string): (r: string)
    ensures |r| == |s|
    ensures forall k :: 0 <= k < |s| ==> r[k] == LowerChar(s[k])
  {
    seq(|s|, k requires 0 <= k < |s| => LowerChar(s[k]))
  }

  /* ---------------- integers ---------------- */

  function DigitValue(c: char): nat
    requires IsDigit(c)
  {
    c as int - '0' as int
  }

  function DigitChar(d: nat): (c: char)
    requires d < 10
    ensures IsDigit(c) && DigitValue(c) == d
  {
    ('0' as int + d) as char
  }

  predicate AllDigits(s: string) {
    forall k :: 0 <= k < |s| ==> IsDigit(s[k])
  }

  /** Value of a string of decimal digits, most significant first. */
  function DecimalValue(ds: string): nat
    requires AllDigits(ds)
  {
    if |ds| == 0 then 0 else DecimalValue(ds[..|ds| - 1]) * 10 + DigitValue(ds[|ds| - 1])
  }

  /** Canonical decimal spelling of a natural number. */
  function Decimal(n: nat): (r: string)
    ensures |r| > 0 && AllDigits(r)
  {
    if n < 10 then [DigitChar(n)] else Decimal(n / 10) + [DigitChar(n % 10)]
  }

  lemma {:induction false} DecimalRoundTrip(n: nat)
    ensures DecimalValue(Decimal(n)) == n
  {
    if n >= 10 {
      var r := Decimal(n);
      assert r[..|r| - 1] == Decimal(n / 10);
      DecimalRoundTrip(n / 10);
    }
  }

  /** Digits with single underscores allowed between digits, as Python's
      `int()` accepts them. */
  predicate IsDigitGroup(t: string) {
    && |t| > 0 && IsDigit(t[0]) && IsDigit(t[|t| - 1])
    && (forall k :: 0 <= k < |t| ==> IsDigit(t[k]) || t[k] == '_')
    && (forall k :: 0 <= k < |t| - 1 && t[k] == '_' ==> IsDigit(t[k + 1]))
  }

  function RemoveUnderscores(t: string): (r: string)
    requires forall k :: 0 <= k < |t| ==> IsDigit(t[k]) || t[k] == '_'
    ensures AllDigits(r)
    ensures AllDigits(t) ==> r == t
  {
    if |t| == 0 then ""
    else if t[0] == '_' then RemoveUnderscores(t[1..])
    else [t[0]] + RemoveUnderscores(t[1..])
  }

  /** Python `int(token)` for a token without whitespace (the result of
      `split()`): an optional sign followed by a digit group; anything else
      raises `ValueError`, modelled as `None`. Non-ASCII digits are not
      modelled. */
  function ParseInt(t: string): Option<int> {
    if |t| > 0 && (t[0] == '+' || t[0] == '-') then
      var body := t[1..];
      if IsDigitGroup(body) then
        var v: int := DecimalValue(RemoveUnderscores(body));
        Some(if t[0] == '-' then -v else v)
      else None
    else if IsDigitGroup(t) then Some(DecimalValue(RemoveUnderscores(t)) as int)
    else None
  }

  /** Python `str(n)`. */
  function Show(n: int): string {
    if n < 0 then "-" + Decimal(-n) else Decimal(n)
  }

  /** `int()` inverts `str()` on integers. */
  lemma ParseIntShow(n: int)
    ensures ParseInt(Show(n)) == Some(n)
  {
    var ds := Decimal(if n < 0 then -n else n);
    assert IsDigitGroup(ds);
    assert RemoveUnderscores(ds) == ds;
    DecimalRoundTrip(if n < 0 then -n else n);
    if n < 0 {
      var s := Show(n);
      assert s[0] == '-' && s[1..] == ds;
    } else {
      assert IsDigit(ds[0]);
    }
  }

  /** Python `int(n / d)` for a positive divisor: true division followed by
      truncation toward zero. Exact while `|n|` stays within the 53-bit
      range of a double. */
  function TruncDiv(n: int, d: int): (q: int)
    requires d > 0
    ensures n >= 0 ==> 0 <= q && q * d <= n < q * d + d
    ensures n < 0 ==> q <= 0 && q * d - d < n <= q * d
  {
    if n >= 0 then n / d else -((-n) / d)
  }
}
