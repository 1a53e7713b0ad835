/** The operating-system name and the hardware summary of the inventory,
    read from `/etc/os-release`, `/etc/issue`, `/proc/cpuinfo` and
    `/proc/meminfo`. The files' contents are inputs: `None` stands for a
    file that is missing or cannot be read, which the source swallows. */
module SysInfo {
  import opened Base
  import opened Text

  const PRETTY_KEY: string := "PRETTY_NAME="
  const CPU_KEY: string := "model name"
  const UNKNOWN_CPU: string := "Unknown"

  /* ---------------- operating system ---------------- */

  /** The value on a `PRETTY_NAME=` line: everything after the first `=`,
      whitespace stripped, then double quotes stripped. */
  function PrettyValue(line: string): string
    requires PRETTY_KEY <= line
  {
    StripQuotes(Strip(line[|PRETTY_KEY|..]))
  }

  /** Scans `/etc/os-release` line by line and stops at the first
      `PRETTY_NAME=` line, even when its value is empty; `""` when there is
      none. */
  function PrettyName(lines: seq<string>): (r: string)
    ensures (forall i :: 0 <= i < |lines| ==> !(PRETTY_KEY <= lines[i])) ==> r == ""
  {
    if |lines| == 0 then ""
    else if PRETTY_KEY <= lines[0] then PrettyValue(lines[0])
    else PrettyName(lines[1..])
  }

  /** The first `PRETTY_NAME=` line decides, whatever follows it. */
  lemma {:induction false} PrettyNameFirst(pre: seq<string>, line: string, post: seq<string>)
    requires forall i :: 0 <= i < |pre| ==> !(PRETTY_KEY <= pre[i])
    requires PRETTY_KEY <= line
    ensures PrettyName(pre + [line] + post) == PrettyValue(line)
  {
    if |pre| > 0 {
      assert (pre + [line] + post)[1..] == pre[1..] + [line] + post;
      PrettyNameFirst(pre[1..], line, post);
    } else {
      assert (pre + [line] + post)[0] == line;
    }
  }

  /** Reading back what an os-release file states: a line
      `PRETTY_NAME="v"` with its newline gives `v`, provided `v` neither
      starts nor ends with a quote. */
  lemma PrettyNameRoundTrip(pre: seq<string>, v: string, post: seq<string>)
    requires forall i :: 0 <= i < |pre| ==> !(PRETTY_KEY <= pre[i])
    requires |v| > 0 ==> !IsQuote(v[0]) && !IsQuote(v[|v| - 1])
    ensures PrettyName(pre + [PRETTY_KEY + "\"" + v + "\"\n"] + post) == v
  {
    var line := PRETTY_KEY + "\"" + v + "\"\n";
    assert line[..|PRETTY_KEY|] == PRETTY_KEY;
    PrettyNameFirst(pre, line, post);
    PrettyValueOf(v);
  }

  lemma PrettyValueOf(v: string)
    requires |v| > 0 ==> !IsQuote(v[0]) && !IsQuote(v[|v| - 1])
    ensures PRETTY_KEY <= PRETTY_KEY + "\"" + v + "\"\n"
    ensures PrettyValue(PRETTY_KEY + "\"" + v + "\"\n") == v
  {
    var line := PRETTY_KEY + "\"" + v + "\"\n";
    var quoted := "\"" + v + "\"";
    assert line[..|PRETTY_KEY|] == PRETTY_KEY;
    assert line[|PRETTY_KEY|..] == "" + quoted + "\n";
    assert Strip(line[|PRETTY_KEY|..]) == quoted by {
      StripByPadded("", quoted, "\n", IsSpace);
    }
    StripByPadded("\"", v, "\"", IsQuote);
  }

  /** `/etc/issue` up to its first backslash escape, whitespace stripped. */
  function IssueName(text: string): (r: string)
    ensures '\\' !in r
  {
    var head := Before(text, '\\');
    var r := Strip(head);
    assert forall c :: c in r ==> c in head by {
      var i :| StrippedAt(head, r, i, IsSpace);
      forall c | c in r ensures c in head {
        var k :| 0 <= k < |r| && r[k] == c;
        assert head[i + k] == c;
      }
    }
    r
  }

  /** A typical issue file, `NAME \n \l`, names the system as `NAME`. */
  lemma IssueNameRoundTrip(v: string, rest: string)
    requires '\\' !in v
    requires |v| > 0 ==> !IsSpace(v[0]) && !IsSpace(v[|v| - 1])
    ensures IssueName(v + " \\" + rest) == v
  {
    var text := v + " \\" + rest;
    assert '\\' !in v + " " by {
      assert forall c :: c in v + " " ==> c in v || c == ' ';
    }
    assert text == (v + " ") + ['\\'] + rest;
    BeforeFirst(v + " ", '\\', rest);
    StripByPadded("", v, " ", IsSpace);
    assert "" + v + " " == v + " ";
  }

  /** `get_os_info`'s name: `/etc/os-release`, then `/etc/issue`, then
      `platform.system() platform.release()`; each later source is used
      only when the earlier ones gave an empty name. The result is never
      empty. */
  function OsPrettyName(osRelease: Option<seq<string>>, issue: Option<string>, system: string, release: string): (r: string)
    ensures r != ""
    ensures osRelease.Some? && PrettyName(osRelease.value) != "" ==> r == PrettyName(osRelease.value)
    ensures (osRelease.None? || PrettyName(osRelease.value) == "") && issue.Some? && IssueName(issue.value) != "" ==>
              r == IssueName(issue.value)
    ensures (osRelease.None? || PrettyName(osRelease.value) == "") && (issue.None? || IssueName(issue.value) == "") ==>
              r == system + " " + release
  {
    var fromRelease := if osRelease.Some? then PrettyName(osRelease.value) else "";
    if fromRelease != "" then fromRelease
    else
      var fromIssue := if issue.Some? then IssueName(issue.value) else "";
      if fromIssue != "" then fromIssue
      else system + " " + release
  }

  /** An os-release file that names the system wins over every fallback. */
  lemma OsNameFromRelease(lines: seq<string>, v: string, issue: Option<string>, system: string, release: string)
    requires |v| > 0 && !IsQuote(v[0]) && !IsQuote(v[|v| - 1])
    ensures OsPrettyName(Some([PRETTY_KEY + "\"" + v + "\"\n"] + lines), issue, system, release) == v
  {
    PrettyNameRoundTrip([], v, lines);
    assert [] + [PRETTY_KEY + "\"" + v + "\"\n"] + lines == [PRETTY_KEY + "\"" + v + "\"\n"] + lines;
  }

  /* ---------------- CPU and memory ---------------- */

  /** The first line of `/proc/cpuinfo` containing `model name`: the part
      after the first colon and before any second one, whitespace stripped.
      A matching line without a colon raises `IndexError`, which leaves
      `Unknown`, as does a missing file or no matching line. */
  function CpuModel(cpuinfo: Option<seq<string>>): (r: string)
  {
    match cpuinfo
    case None => UNKNOWN_CPU
    case Some(lines) => CpuFromLines(lines)
  }

  function CpuFromLines(lines: seq<string>): (r: string)
    ensures (forall i :: 0 <= i < |lines| ==> !Contains(lines[i], CPU_KEY)) ==> r == UNKNOWN_CPU
  {
    if |lines| == 0 then UNKNOWN_CPU
    else if Contains(lines[0], CPU_KEY) then
      var parts := SplitOn(lines[0], ':');
      if |parts| < 2 then UNKNOWN_CPU else Strip(parts[1])
    else CpuFromLines(lines[1..])
  }

  /** Reading back a `/proc/cpuinfo` entry `model name\t: v`: the first
      such line gives `v`, provided `v` has no colon and no surrounding
      whitespace. */
  lemma {:induction false} CpuModelRoundTrip(pre: seq<string>, v: string, post: seq<string>)
    requires forall i :: 0 <= i < |pre| ==> !Contains(pre[i], CPU_KEY)
    requires ':' !in v
    requires |v| > 0 ==> !IsSpace(v[0]) && !IsSpace(v[|v| - 1])
    ensures CpuModel(Some(pre + [CPU_KEY + "\t: " + v + "\n"] + post)) == v
  {
    var lines := pre + [CPU_KEY + "\t: " + v + "\n"] + post;
    if |pre| > 0 {
      assert lines[1..] == pre[1..] + [CPU_KEY + "\t: " + v + "\n"] + post;
      CpuModelRoundTrip(pre[1..], v, post);
    } else {
      var line := CPU_KEY + "\t: " + v + "\n";
      assert lines[0] == line;
      ContainsPrefix(line, CPU_KEY);
      var parts := [CPU_KEY + "\t", " " + v + "\n"];
      assert JoinWith(parts, ':') == line;
      assert ':' !in parts[1] by {
        assert forall c :: c in parts[1] ==> c == ' ' || c in v || c == '\n';
      }
      SplitJoin(parts, ':');
      StripByPadded(" ", v, "\n", IsSpace);
    }
  }

  /** Total memory in MiB: the second whitespace-separated token of the
      first line of `/proc/meminfo` as an integer, divided by 1024 and
      truncated toward zero; 0 when the file is missing, the line has fewer
      than two tokens or the token is not an integer. */
  function MemMb(firstLine: Option<string>): (r: int)
  {
    match firstLine
    case None => 0
    case Some(line) =>
      var ws := Words(line);
      if |ws| < 2 then 0
      else
        match ParseInt(ws[1])
        case None => 0
        case Some(kb) => TruncDiv(kb, 1024)
  }

  /** Reading back a meminfo line `MemTotal: n kB`, whatever whitespace
      surrounds and separates its tokens, newline included: the result is
      `n` KiB in whole MiB, truncated toward zero. */
  lemma MemMbRoundTrip(key: string, n: int, rest: seq<string>, gaps: seq<string>)
    requires WellSpread([key, Show(n)] + rest, gaps)
    ensures var r := MemMb(Some(Spread([key, Show(n)] + rest, gaps)));
      && (n >= 0 ==> r * 1024 <= n < r * 1024 + 1024)
      && (n < 0 ==> r * 1024 - 1024 < n <= r * 1024)
  {
    WordsSpread([key, Show(n)] + rest, gaps);
    ParseIntShow(n);
  }
}
