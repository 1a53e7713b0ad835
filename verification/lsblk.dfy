/** Parsing one line of `lsblk -P` output: the `KEY="value"` pairs the
    regular expression `(\w+)="([^"]*)"` finds, and the field map built
    from them with lower-cased keys. */
module Lsblk {
  import opened Base
  import opened Text

  /** Regex `\w`, restricted to ASCII. */
  predicate IsWordChar(c: char) {
    'a' <= c <= 'z' || 'A' <= c <= 'Z' || '0' <= c <= '9' || c == '_'
  }

  /** A non-empty run of word characters. */
  predicate IsKey(k: string) {
    |k| > 0 && forall i :: 0 <= i < |k| ==> IsWordChar(k[i])
  }

  /** `KEY="value"` */
  function RenderPair(k: string, v: string): string {
    k + "=\"" + v + "\""
  }

  /** The regex anchored at the start of `s`: the key, the value and the
      number of characters the match consumes. `\w+` must take the whole
      run of word characters (a shorter run is followed by a word
      character, not `=`), and `[^"]*` runs to the first quote. */
  function MatchPair(s: string): (r: Option<(string, string, nat)>)
    ensures r.Some? ==> 0 < r.value.2 <= |s|
    ensures r.Some? ==> IsKey(r.value.0) && '"' !in r.value.1
    ensures r.Some? ==> s[..r.value.2] == RenderPair(r.value.0, r.value.1)
    ensures (|s| == 0 || !IsWordChar(s[0])) ==> r.None?
  {
    var n := LeadingCount(s, IsWordChar);
    if n == 0 || n + 2 > |s| || s[n] != '=' || s[n + 1] != '"' then None
    else
      var rest := s[n + 2..];
      var v := Before(rest, '"');
      if |v| == |rest| then None
      else
        MatchShape(s, n, v);
        Some((s[..n], v, n + 3 + |v|))
  }

  /** The text a match consumes: the word-character run, `="`, the value
      and the closing quote. */
  lemma MatchShape(s: string, n: nat, v: string)
    requires 0 < n && n + 2 <= |s| && s[n] == '=' && s[n + 1] == '"'
    requires forall k :: 0 <= k < n ==> IsWordChar(s[k])
    requires v == Before(s[n + 2..], '"') && |v| < |s[n + 2..]|
    ensures n + 3 + |v| <= |s|
    ensures IsKey(s[..n]) && '"' !in v
    ensures s[..n + 3 + |v|] == RenderPair(s[..n], v)
  {
    assert forall k :: 0 <= k < n ==> s[..n][k] == s[k];
    PairText(s, n, v, s[n + 2..]);
  }

  /** `s` cut after the closing quote is the rendered pair. */
  lemma PairText(s: string, n: nat, v: string, rest: string)
    requires n + 2 <= |s| && s[n] == '=' && s[n + 1] == '"' && rest == s[n + 2..]
    requires v <= rest && |v| < |rest| && rest[|v|] == '"'
    ensures s[..n + 3 + |v|] == RenderPair(s[..n], v)
  {
    var len := n + 3 + |v|;
    assert rest[..|v| + 1] == v + "\"";
    assert s[n..n + 2] == "=\"";
    assert s[..len] == s[..n] + s[n..n + 2] + rest[..|v| + 1];
  }

  /** `re.finditer`: every match left to right; after a match the search
      resumes where it ended, otherwise one character further on. */
  function ScanPairs(s: string): (r: seq<(string, string)>)
    ensures forall i :: 0 <= i < |r| ==> IsKey(r[i].0) && '"' !in r[i].1
    decreases |s|
  {
    if |s| == 0 then []
    else
      match MatchPair(s)
      case Some((k, v, len)) => [(k, v)] + ScanPairs(s[len..])
      case None => ScanPairs(s[1..])
  }

  /** A line without a double quote yields no pairs; `N/A`, what a failed
      command leaves, is one. */
  lemma {:induction false} NoQuoteNoPairs(s: string)
    requires '"' !in s
    ensures ScanPairs(s) == []
    decreases |s|
  {
    if |s| > 0 {
      match MatchPair(s)
      case Some(_) =>
        assert false;
      case None =>
        assert forall c :: c in s[1..] ==> c in s;
        NoQuoteNoPairs(s[1..]);
    }
  }

  /** A line as `lsblk -P` prints it: pairs separated by single spaces. */
  function RenderPairs(ps: seq<(string, string)>): string {
    if |ps| == 0 then ""
    else if |ps| == 1 then RenderPair(ps[0].0, ps[0].1)
    else RenderPair(ps[0].0, ps[0].1) + " " + RenderPairs(ps[1..])
  }

  /** The regex matches a rendered pair in full, whatever follows it. */
  lemma MatchRendered(k: string, v: string, tail: string)
    requires IsKey(k) && '"' !in v
    ensures MatchPair(RenderPair(k, v) + tail) == Some((k, v, |RenderPair(k, v)|))
  {
    var s := RenderPair(k, v) + tail;
    assert s == k + ("=\"" + v + "\"" + tail);
    LeadingCountOfRun(k, "=\"" + v + "\"" + tail, IsWordChar);
    var n := |k|;
    assert s[n] == '=' && s[n + 1] == '"';
    var rest := s[n + 2..];
    assert rest == v + ['"'] + tail;
    BeforeFirst(v, '"', tail);
    assert s[..n] == k;
  }

  /** Parsing inverts rendering: the pairs of a well-formed `lsblk -P` line
      come back in order. */
  lemma {:induction false} ScanRenderRoundTrip(ps: seq<(string, string)>)
    requires forall i :: 0 <= i < |ps| ==> IsKey(ps[i].0) && '"' !in ps[i].1
    ensures ScanPairs(RenderPairs(ps)) == ps
  {
    if |ps| == 1 {
      var s := RenderPair(ps[0].0, ps[0].1);
      MatchRendered(ps[0].0, ps[0].1, "");
      assert s + "" == s;
      assert s[|s|..] == "";
    } else if |ps| > 1 {
      ScanAfterPair(ps[0].0, ps[0].1, RenderPairs(ps[1..]));
      ScanRenderRoundTrip(ps[1..]);
      assert [ps[0]] + ps[1..] == ps;
    }
  }

  /** A rendered pair and the separating space are consumed as one match. */
  lemma ScanAfterPair(k: string, v: string, rest: string)
    requires IsKey(k) && '"' !in v
    ensures ScanPairs(RenderPair(k, v) + " " + rest) == [(k, v)] + ScanPairs(rest)
  {
    var first := RenderPair(k, v);
    var s := first + (" " + rest);
    assert first + " " + rest == s;
    MatchRendered(k, v, " " + rest);
    assert s[|first|..] == " " + rest;
    assert MatchPair(" " + rest).None?;
    assert (" " + rest)[1..] == rest;
    assert ScanPairs(" " + rest) == ScanPairs(rest);
  }

  /** `d[m.group(1).lower()] = m.group(2)` over all matches, in order. */
  function FieldsOf(ps: seq<(string, string)>): map<string, string> {
    if |ps| == 0 then map[]
    else FieldsOf(ps[..|ps| - 1])[Lower(ps[|ps| - 1].0) := ps[|ps| - 1].1]
  }

  /** The field map has exactly the lower-cased keys of the pairs, and a
      later pair overwrites an earlier one with the same lower-cased key. */
  lemma {:induction false} FieldsOfSpec(ps: seq<(string, string)>)
    ensures FieldsOf(ps).Keys == set i | 0 <= i < |ps| :: Lower(ps[i].0)
    ensures forall i :: 0 <= i < |ps| && LastKeyAt(ps, i) ==> FieldsOf(ps)[Lower(ps[i].0)] == ps[i].1
  {
    if |ps| > 0 {
      var init := ps[..|ps| - 1];
      FieldsOfSpec(init);
      assert forall i :: 0 <= i < |ps| - 1 ==> ps[i] == init[i];
      assert (set i | 0 <= i < |ps| :: Lower(ps[i].0))
          == (set i | 0 <= i < |init| :: Lower(init[i].0)) + {Lower(ps[|ps| - 1].0)};
      forall i | 0 <= i < |ps| - 1 && LastKeyAt(ps, i)
        ensures FieldsOf(ps)[Lower(ps[i].0)] == ps[i].1
      {
        assert LastKeyAt(init, i);
      }
    }
  }

  /** No later pair has the same lower-cased key as pair `i`. */
  predicate LastKeyAt(ps: seq<(string, string)>, i: int)
    requires 0 <= i < |ps|
  {
    forall j :: i < j < |ps| ==> Lower(ps[j].0) != Lower(ps[i].0)
  }

  /** The field map of one line of output. */
  function LineFields(line: string): map<string, string> {
    FieldsOf(ScanPairs(line))
  }

  /** Python `d.get(key, '')`. */
  function Lookup(m: map<string, string>, key: string): string {
    if key in m then m[key] else ""
  }

  /** The columns the device inventory asks `lsblk` for, in order. */
  const Columns: seq<string> := ["NAME", "KNAME", "PKNAME", "FSTYPE", "MOUNTPOINT", "UUID", "PARTUUID",
                                 "MODEL", "VENDOR", "SIZE", "TYPE", "HCTL", "SERIAL", "WWN"]

  /** The keys the inventory reads those columns back under. */
  const ColumnKeys: seq<string> := ["name", "kname", "pkname", "fstype", "mountpoint", "uuid", "partuuid",
                                    "model", "vendor", "size", "type", "hctl", "serial", "wwn"]

  /** One line `lsblk -P -o <Columns>` prints, given each column's value. */
  function ColumnLine(vs: seq<string>): string
    requires |vs| == |Columns|
  {
    RenderPairs(seq(|Columns|, i requires 0 <= i < |Columns| => (Columns[i], vs[i])))
  }

  /** Lower-casing the column names gives exactly the keys looked up later. */
  lemma LowerColumns()
    ensures forall i :: 0 <= i < |Columns| ==> Lower(Columns[i]) == ColumnKeys[i]
  {
    LowerIs("NAME", "name");
    LowerIs("KNAME", "kname");
    LowerIs("PKNAME", "pkname");
    LowerIs("FSTYPE", "fstype");
    LowerIs("MOUNTPOINT", "mountpoint");
    LowerIs("UUID", "uuid");
    LowerIs("PARTUUID", "partuuid");
    LowerIs("MODEL", "model");
    LowerIs("VENDOR", "vendor");
    LowerIs("SIZE", "size");
    LowerIs("TYPE", "type");
    LowerIs("HCTL", "hctl");
    LowerIs("SERIAL", "serial");
    LowerIs("WWN", "wwn");
  }

  /** Every column name is a run of word characters. */
  lemma ColumnsAreKeys()
    ensures forall i :: 0 <= i < |Columns| ==> IsKey(Columns[i])
  {
    UpperIsKey("NAME");
    UpperIsKey("KNAME");
    UpperIsKey("PKNAME");
    UpperIsKey("FSTYPE");
    UpperIsKey("MOUNTPOINT");
    UpperIsKey("UUID");
    UpperIsKey("PARTUUID");
    UpperIsKey("MODEL");
    UpperIsKey("VENDOR");
    UpperIsKey("SIZE");
    UpperIsKey("TYPE");
    UpperIsKey("HCTL");
    UpperIsKey("SERIAL");
    UpperIsKey("WWN");
  }

  /** Upper-case letters are word characters. */
  lemma UpperIsKey(k: string)
    requires |k| > 0 && forall i :: 0 <= i < |k| ==> 'A' <= k[i] <= 'Z'
    ensures IsKey(k)
  {
  }

  /** `Lower(u) == l` follows from the characters. */
  lemma LowerIs(u: string, l: string)
    requires |u| == |l| && forall k :: 0 <= k < |u| ==> LowerChar(u[k]) == l[k]
    ensures Lower(u) == l
  {
  }

  /** Every column's value of a line `lsblk` prints is found under its
      lower-case key, and no other key is present. */
  lemma ColumnFields(vs: seq<string>)
    requires |vs| == |Columns|
    requires forall i :: 0 <= i < |vs| ==> '"' !in vs[i]
    ensures LineFields(ColumnLine(vs)).Keys == set i | 0 <= i < |ColumnKeys| :: ColumnKeys[i]
    ensures forall i :: 0 <= i < |ColumnKeys| ==> Lookup(LineFields(ColumnLine(vs)), ColumnKeys[i]) == vs[i]
  {
    var ps := seq(|Columns|, i requires 0 <= i < |Columns| => (Columns[i], vs[i]));
    LowerColumns();
    KeysDistinct();
    assert forall i :: 0 <= i < |ps| ==> Lower(ps[i].0) == ColumnKeys[i];
    ColumnsAreKeys();
    RenderedFields(ps);
    assert (set i | 0 <= i < |ps| :: Lower(ps[i].0)) == (set i | 0 <= i < |ColumnKeys| :: ColumnKeys[i]);
  }

  /** No two inventory keys coincide. */
  lemma KeysDistinct()
    ensures forall i, j :: 0 <= i < j < |ColumnKeys| ==> ColumnKeys[i] != ColumnKeys[j]
  {
  }

  /** The field map of a rendered line whose keys have distinct lower-case
      forms: each value under its lower-cased key, and nothing else. */
  lemma RenderedFields(ps: seq<(string, string)>)
    requires forall i :: 0 <= i < |ps| ==> IsKey(ps[i].0) && '"' !in ps[i].1
    requires forall i, j :: 0 <= i < j < |ps| ==> Lower(ps[i].0) != Lower(ps[j].0)
    ensures LineFields(RenderPairs(ps)).Keys == set i | 0 <= i < |ps| :: Lower(ps[i].0)
    ensures forall i :: 0 <= i < |ps| ==> Lookup(LineFields(RenderPairs(ps)), Lower(ps[i].0)) == ps[i].1
  {
    ScanRenderRoundTrip(ps);
    FieldsOfSpec(ps);
    forall i | 0 <= i < |ps| ensures LastKeyAt(ps, i) {
    }
  }
}
