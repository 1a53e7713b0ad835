/** The decisions of the HTML report: which libraries are flagged, which
    disk a file lives on, what each process row shows, and how an interface
    line is split. The markup itself is not modelled; each rendered piece
    is a field of a record. */
module Report {
  import opened Base
  import opened Text
  import opened Sorting
  import opened OrderedMap
  import opened Lsblk
  import opened Storage
  import opened ProcessTree

  /* ---------------- the forensic library check ---------------- */

  const BAD_PREFIXES: seq<string> := ["/tmp/", "/var/tmp/", "/dev/shm/", "/home/"]
  const DELETED: string := "(deleted)"

  /** Python `s.startswith(tuple)`. */
  function StartsWithAny(s: string, ps: seq<string>): (r: bool)
    ensures r <==> exists i :: 0 <= i < |ps| && ps[i] <= s
  {
    if |ps| == 0 then false
    else
      var rest := StartsWithAny(s, ps[1..]);
      assert rest <==> exists i :: 1 <= i < |ps| && ps[i] <= s by {
        if rest {
          var i :| 0 <= i < |ps[1..]| && ps[1..][i] <= s;
          assert ps[i + 1] <= s;
        }
        if exists i :: 1 <= i < |ps| && ps[i] <= s {
          var i :| 1 <= i < |ps| && ps[i] <= s;
          assert ps[1..][i - 1] <= s;
        }
      }
      ps[0] <= s || rest
  }

  /** `is_suspicious_lib`: mapped from a world-writable or home directory,
      or deleted from disk while mapped. */
  predicate IsSuspiciousLib(lib: string) {
    StartsWithAny(lib, BAD_PREFIXES) || Contains(lib, DELETED)
  }

  /** The check, spelled out: one of the four directory prefixes, or
      `(deleted)` anywhere in the path. */
  lemma SuspiciousLibIff(lib: string)
    ensures IsSuspiciousLib(lib) <==>
      || "/tmp/" <= lib || "/var/tmp/" <= lib || "/dev/shm/" <= lib || "/home/" <= lib
      || exists i :: OccursAt(lib, DELETED, i)
  {
    ContainsMeansOccurs(lib, DELETED);
    assert BAD_PREFIXES[0] == "/tmp/" && BAD_PREFIXES[1] == "/var/tmp/";
    assert BAD_PREFIXES[2] == "/dev/shm/" && BAD_PREFIXES[3] == "/home/";
  }

  /** The kernel marks a mapping whose file was unlinked with a trailing
      ` (deleted)`; every such mapping is flagged. */
  lemma DeletedMappingFlagged(path: string)
    ensures IsSuspiciousLib(path + " (deleted)")
  {
    assert path + " (deleted)" == (path + " ") + DELETED;
    ContainsSuffix(path + " ", DELETED);
  }

  /** A string without the first character of `sub` does not contain it. */
  lemma MissingFirstChar(s: string, sub: string)
    requires |sub| > 0 && sub[0] !in s
    ensures !Contains(s, sub)
  {
    forall i | 0 <= i && i + |sub| <= |s| ensures !OccursAt(s, sub, i) {
      assert s[i] in s;
    }
    ContainsMeansOccurs(s, sub);
  }

  /** Libraries under `/usr/` or `/lib` without a parenthesis, such as
      `/usr/lib64/libc.so.6`, are not flagged. */
  lemma SystemLibNotFlagged(lib: string)
    requires "/usr/" <= lib || "/lib" <= lib
    requires '(' !in lib
    ensures !IsSuspiciousLib(lib)
  {
    SuspiciousLibIff(lib);
    MissingFirstChar(lib, DELETED);
    ContainsMeansOccurs(lib, DELETED);
    assert lib[1] == 'u' || lib[1] == 'l';
  }

  /* ---------------- which disk a file is on ---------------- */

  /** The loop of `build_disk_string` over the first `n` mounts: the index
      of the mount it has settled on, if any. A mount replaces the current
      one only when it is a prefix of the path and strictly longer, so the
      empty mount point is never chosen and the first of equally long
      candidates stays. */
  function Pick(path: string, mounts: Dict<string, Device>, n: nat): (r: Option<nat>)
    requires n <= |mounts|
    ensures r.Some? ==> r.value < n && mounts[r.value].0 <= path && |mounts[r.value].0| > 0
    ensures r.Some? ==> forall j :: 0 <= j < n && mounts[j].0 <= path ==> |mounts[j].0| <= |mounts[r.value].0|
    ensures r.Some? ==> forall j :: 0 <= j < r.value && mounts[j].0 <= path ==> |mounts[j].0| < |mounts[r.value].0|
    ensures r.None? ==> forall j :: 0 <= j < n && mounts[j].0 <= path ==> mounts[j].0 == ""
  {
    if n == 0 then None
    else
      var prev := Pick(path, mounts, n - 1);
      var mp := mounts[n - 1].0;
      var bestLen := if prev.Some? then |mounts[prev.value].0| else 0;
      if mp <= path && |mp| > bestLen then Some(n - 1) else prev
  }

  function BestMount(path: string, mounts: Dict<string, Device>): Option<nat> {
    Pick(path, mounts, |mounts|)
  }

  /** Mount `i` is the first of the longest non-empty mount points that
      are a prefix of `path`. */
  predicate LongestFirst(path: string, mounts: Dict<string, Device>, i: nat) {
    && i < |mounts|
    && mounts[i].0 <= path && |mounts[i].0| > 0
    && (forall j :: 0 <= j < |mounts| && mounts[j].0 <= path ==> |mounts[j].0| <= |mounts[i].0|)
    && (forall j :: 0 <= j < i && mounts[j].0 <= path ==> |mounts[j].0| < |mounts[i].0|)
  }

  /** The lookup chooses exactly the first longest prefix. */
  lemma BestMountIff(path: string, mounts: Dict<string, Device>, i: nat)
    ensures BestMount(path, mounts) == Some(i) <==> LongestFirst(path, mounts, i)
  {
    var b := BestMount(path, mounts);
    if LongestFirst(path, mounts, i) {
      assert b.Some?;
      assert |mounts[b.value].0| == |mounts[i].0|;
    }
  }

  /** What the disk string shows: the fixed pseudo marker, or the
      filesystem, device, UUID, HCTL and first persistent path. */
  datatype DiskLabel = Pseudo | Disk(fstype: string, name: string, uuid: string, hctl: string, path: Option<string>)

  /** Python `info.get(key, default)`. */
  function GetOr(d: Device, key: string, default: string): (r: string)
    ensures key in d.fields ==> r == d.fields[key]
    ensures key !in d.fields ==> r == default
  {
    if key in d.fields then d.fields[key] else default
  }

  /** The label of a chosen device: `N/A` for an absent `fstype`, `name`
      or `uuid`; `N/A` for an absent or empty `hctl`; a path only when the
      device has a non-empty list of persistent paths, and then the first. */
  function LabelOf(d: Device): (r: DiskLabel)
    ensures r.Disk?
    ensures r.fstype == (if "fstype" in d.fields then d.fields["fstype"] else "N/A")
    ensures r.name == (if "name" in d.fields then d.fields["name"] else "N/A")
    ensures r.uuid == (if "uuid" in d.fields then d.fields["uuid"] else "N/A")
    ensures r.hctl == "N/A" <==> Hctl(d) == "" || Hctl(d) == "N/A"
    ensures r.hctl != "N/A" ==> r.hctl == Hctl(d)
    ensures r.path.Some? <==> d.paths.Some? && |d.paths.value| > 0
    ensures r.path.Some? ==> r.path.value == d.paths.value[0]
  {
    Disk(
      GetOr(d, "fstype", "N/A"),
      GetOr(d, "name", "N/A"),
      GetOr(d, "uuid", "N/A"),
      if Hctl(d) != "" then Hctl(d) else "N/A",
      if d.paths.Some? && |d.paths.value| > 0 then Some(d.paths.value[0]) else None)
  }

  /** `build_disk_string`: the label of the device on the longest mount
      point that is a prefix of `path`; the pseudo marker when there is
      none or its device record is empty (falsy). */
  function DiskLabelOf(path: string, mounts: Dict<string, Device>): (r: DiskLabel)
  {
    match BestMount(path, mounts)
    case None => Pseudo
    case Some(i) => if Truthy(mounts[i].1) then LabelOf(mounts[i].1) else Pseudo
  }

  /** The label is that of the first longest matching mount... */
  lemma DiskLabelOfLongest(path: string, mounts: Dict<string, Device>, i: nat)
    requires LongestFirst(path, mounts, i) && Truthy(mounts[i].1)
    ensures DiskLabelOf(path, mounts) == LabelOf(mounts[i].1)
  {
    BestMountIff(path, mounts, i);
  }

  /** ... and the pseudo marker exactly when no non-empty mount point is a
      prefix of the path or the chosen one's record is empty. */
  lemma DiskLabelPseudo(path: string, mounts: Dict<string, Device>)
    ensures DiskLabelOf(path, mounts) == Pseudo <==>
      forall i :: 0 <= i < |mounts| && LongestFirst(path, mounts, i) ==> !Truthy(mounts[i].1)
  {
    var b := BestMount(path, mounts);
    if b.Some? {
      BestMountIff(path, mounts, b.value);
    }
    forall i | 0 <= i < |mounts| && LongestFirst(path, mounts, i)
      ensures b == Some(i)
    {
      BestMountIff(path, mounts, i);
    }
  }

  /* ---------------- the display rules of a row ---------------- */

  const CMD_MAX: nat := 80
  const INDENT_PX: nat := 25
  const BASE_PRIO: int := 120
  const SSH_MARK: string := "[SSH:"
  const SUDO_MARK: string := "[SUDO:"

  /** The command column: kept whole below 80 characters, otherwise its
      first 80 characters and `...`. */
  function ShownCmd(cmd: string): (r: string)
    ensures |cmd| < CMD_MAX ==> r == cmd
    ensures |cmd| >= CMD_MAX ==> |r| == CMD_MAX + 3 && r[..CMD_MAX] == cmd[..CMD_MAX] && r[CMD_MAX..] == "..."
  {
    if |cmd| < CMD_MAX then cmd else cmd[..CMD_MAX] + "..."
  }

  /** Shortening a shown command again changes nothing, and the shown
      command starts with as much of the command as fits. */
  lemma ShownCmdIdempotent(cmd: string)
    ensures ShownCmd(ShownCmd(cmd)) == ShownCmd(cmd)
    ensures |ShownCmd(cmd)| <= CMD_MAX + 3
    ensures |cmd| <= CMD_MAX ==> cmd <= ShownCmd(cmd)
  {
    var r := ShownCmd(cmd);
    if |cmd| >= CMD_MAX {
      assert r[..CMD_MAX] == cmd[..CMD_MAX];
      assert ShownCmd(r) == r[..CMD_MAX] + "...";
      assert r == r[..CMD_MAX] + r[CMD_MAX..];
    }
  }

  /** The indentation of a row at `level`: `level` × 25 pixels, and the
      `|-- ` branch mark below the top level. */
  datatype Indent = Indent(px: nat, branch: bool)

  function IndentOf(level: nat): (r: Indent)
    ensures r.px % INDENT_PX == 0 && r.px / INDENT_PX == level
    ensures r.branch <==> r.px > 0
  {
    Indent(level * INDENT_PX, level > 0)
  }

  /** The displayed nice value and whether it is shown in red. */
  function NiceOf(prio: int): (r: (int, bool))
    ensures r.0 + BASE_PRIO == prio
    ensures r.1 <==> r.0 < 0
  {
    (prio - BASE_PRIO, prio - BASE_PRIO < 0)
  }

  /** The I/O cell: the write delta if positive, else the read delta if
      positive, else empty. */
  datatype IoCell = NoIo | WriteIo(bytes: int) | ReadIo(bytes: int)

  function IoOf(readDelta: int, writeDelta: int): (r: IoCell)
    ensures r.NoIo? <==> readDelta <= 0 && writeDelta <= 0
    ensures r.WriteIo? ==> r.bytes == writeDelta
    ensures r.ReadIo? ==> r.bytes == readDelta && writeDelta <= 0
    ensures !r.NoIo? ==> r.bytes > 0
  {
    if writeDelta > 0 then WriteIo(writeDelta)
    else if readDelta > 0 then ReadIo(readDelta)
    else NoIo
  }

  /** The alert badges, in the order the row shows them. */
  datatype Alert = SshAlert | SudoAlert | WarnAlert(score: int)

  function Rank(a: Alert): nat {
    match a
    case SshAlert => 0
    case SudoAlert => 1
    case WarnAlert(_) => 2
  }

  /** SSH when the context has an `[SSH:` marker, SUDO when it has a
      `[SUDO:` marker, WARN with the score when the score is positive. The
      badges are determined by these three conditions and their order. */
  function AlertsOf(context: string, score: int): (r: seq<Alert>)
    ensures SshAlert in r <==> Contains(context, SSH_MARK)
    ensures SudoAlert in r <==> Contains(context, SUDO_MARK)
    ensures WarnAlert(score) in r <==> score > 0
    ensures forall i :: 0 <= i < |r| && r[i].WarnAlert? ==> r[i].score == score
    ensures forall i, j :: 0 <= i < j < |r| ==> Rank(r[i]) < Rank(r[j])
  {
    (if Contains(context, SSH_MARK) then [SshAlert] else [])
    + (if Contains(context, SUDO_MARK) then [SudoAlert] else [])
    + (if score > 0 then [WarnAlert(score)] else [])
  }

  /** The row class beside `row proc-row`: the tree class that the branch
      toggle uses, `root` for a falsy (zero) ppid and `c-{ppid}`
      otherwise. */
  datatype TreeClass = RootRow | ChildRow(parent: int)

  function TreeClassOf(ppid: int): (r: TreeClass)
    ensures r == RootRow <==> ppid == 0
    ensures r.ChildRow? ==> r.parent == ppid
  {
    if ppid != 0 then ChildRow(ppid) else RootRow
  }

  /* ---------------- sudo and ssh origin ---------------- */

  /** Python `s.split(sub)[0]`: the text before the first `sub`. */
  function UpTo(s: string, sub: string): (r: string)
    ensures r <= s
    ensures Find(s, sub).Some? ==> |r| == Find(s, sub).value
    ensures Find(s, sub).None? ==> r == s
  {
    match Find(s, sub)
    case Some(i) => s[..i]
    case None => s
  }

  /** `context.split(marker)[1].split("]")[0]` when the marker occurs: the
      text after its first occurrence, up to the next `]` or the next
      occurrence of the marker. */
  function MarkerValue(context: string, marker: string): (r: Option<string>)
    ensures r.Some? <==> Contains(context, marker)
    ensures r.Some? ==> ']' !in r.value
  {
    match Find(context, marker)
    case None => None
    case Some(i) => Some(Before(UpTo(context[i + |marker|..], marker), ']'))
  }

  /** `marker` first occurs right after a prefix without `[`. */
  lemma FindAfterPlain(pre: string, marker: string, rest: string)
    requires |marker| > 0 && marker[0] == '['
    requires '[' !in pre
    ensures Find(pre + marker + rest, marker) == Some(|pre|)
  {
    var s := pre + marker + rest;
    assert s[|pre|..|pre| + |marker|] == marker;
    assert OccursAt(s, marker, |pre|);
    forall j | 0 <= j < |pre| ensures !OccursAt(s, marker, j) {
      assert s[j] == pre[j] && pre[j] in pre;
    }
  }

  /** Reading back an origin the way the context records it: with a
      `[SUDO:v]` or `[SSH:v]` marker after text without `[`, the value is
      `v`, whatever follows. */
  lemma MarkerRoundTrip(pre: string, marker: string, v: string, post: string)
    requires |marker| > 0 && marker[0] == '['
    requires '[' !in pre && '[' !in v && ']' !in v
    ensures MarkerValue(pre + marker + v + "]" + post, marker) == Some(v)
  {
    var s := pre + marker + v + "]" + post;
    FindAfterPlain(pre, marker, v + "]" + post);
    assert s == pre + marker + (v + "]" + post);
    var after := s[|pre| + |marker|..];
    assert after == v + "]" + post;
    var f := Find(after, marker);
    forall j | 0 <= j <= |v| ensures !OccursAt(after, marker, j) {
      if j < |v| {
        assert after[j] == v[j] && v[j] in v;
      }
    }
    if f.Some? {
      var cut := UpTo(after, marker);
      assert cut == v + "]" + cut[|v| + 1..];
      BeforeFirst(v, ']', cut[|v| + 1..]);
    } else {
      BeforeFirst(v, ']', post);
    }
  }

  lemma SudoOriginRoundTrip(pre: string, user: string, post: string)
    requires '[' !in pre && '[' !in user && ']' !in user
    ensures MarkerValue(pre + SUDO_MARK + user + "]" + post, SUDO_MARK) == Some(user)
  {
    MarkerRoundTrip(pre, SUDO_MARK, user, post);
  }

  /* ---------------- the row ---------------- */

  datatype LibLine = LibLine(path: string, unsafe: bool)
  datatype FileLine = FileLine(path: string, disk: DiskLabel)

  /** Everything a process row and its detail pane show, apart from the
      user name, the floating-point columns and the markup. */
  datatype RowView = RowView(
    pid: int,
    indent: Indent,
    expander: bool,
    newBadge: bool,
    cmd: string,
    alerts: seq<Alert>,
    warnRow: bool,
    treeClass: TreeClass,
    nice: (int, bool),
    cpuHigh: bool,
    io: IoCell,
    fullCmd: string,
    md5: string,
    sudoOrigin: Option<string>,
    sshOrigin: Option<string>,
    secCtx: string,
    suspiciousEnv: seq<string>,
    libs: seq<LibLine>,
    files: seq<FileLine>,
    connections: seq<string>)

  /** The paths a listing shows, line by line. */
  function Paths<L>(r: seq<L>, path: L -> string): (ps: seq<string>)
    ensures |ps| == |r| && forall i :: 0 <= i < |r| ==> ps[i] == path(r[i])
  {
    seq(|r|, i requires 0 <= i < |r| => path(r[i]))
  }

  function LibPath(l: LibLine): string { l.path }

  function FilePath(l: FileLine): string { l.path }

  /** The library list: sorted, every library once per occurrence, the
      flagged ones marked. */
  function LibLines(libs: seq<string>): (r: seq<LibLine>)
    ensures Sorted(StrLe, Paths(r, LibPath))
    ensures multiset(Paths(r, LibPath)) == multiset(libs)
    ensures forall i :: 0 <= i < |r| ==> r[i].unsafe == IsSuspiciousLib(r[i].path)
  {
    StrLeTotal();
    var sorted := Sort(StrLe, libs);
    var r := seq(|sorted|, i requires 0 <= i < |sorted| => LibLine(sorted[i], IsSuspiciousLib(sorted[i])));
    assert Paths(r, LibPath) == sorted;
    r
  }

  /** The file list: sorted, each file with the disk it lies on. */
  function FileLines(files: seq<string>, mounts: Dict<string, Device>): (r: seq<FileLine>)
    ensures Sorted(StrLe, Paths(r, FilePath))
    ensures multiset(Paths(r, FilePath)) == multiset(files)
    ensures forall i :: 0 <= i < |r| ==> r[i].disk == DiskLabelOf(r[i].path, mounts)
  {
    StrLeTotal();
    var sorted := Sort(StrLe, files);
    var r := seq(|sorted|, i requires 0 <= i < |sorted| => FileLine(sorted[i], DiskLabelOf(sorted[i], mounts)));
    assert Paths(r, FilePath) == sorted;
    r
  }

  /** `render_row` for the node of `pid` at `level`. The warning row class
      and the WARN badge go together, and each origin line carries a value
      exactly when the matching badge is shown. */
  function Render(node: ProcNode, pid: int, level: nat, hasKids: bool, mounts: Dict<string, Device>): (r: RowView)
    ensures r.warnRow <==> WarnAlert(node.anomalyScore) in r.alerts
    ensures r.sudoOrigin.Some? <==> SudoAlert in r.alerts
    ensures r.sshOrigin.Some? <==> SshAlert in r.alerts
    ensures r.expander == hasKids
  {
    RowView(
      pid,
      IndentOf(level),
      hasKids,
      node.isNew,
      ShownCmd(node.cmd),
      AlertsOf(node.context, node.anomalyScore),
      node.anomalyScore > 0,
      TreeClassOf(node.ppid),
      NiceOf(node.prio),
      node.cpuPct > 50.0,
      IoOf(node.readDelta, node.writeDelta),
      node.cmd,
      if node.md5 != "" then node.md5 else "N/A",
      MarkerValue(node.context, SUDO_MARK),
      MarkerValue(node.context, SSH_MARK),
      if node.secCtx != "" then node.secCtx else "unconfined",
      node.suspiciousEnv,
      LibLines(node.libs),
      FileLines(node.openFiles, mounts),
      node.connections)
  }

  /** The rows of the report in order: row `i` is `render_row` of the
      `i`-th process the walk lays out, so each row has its expander, its
      tree class and no pid twice. */
  function Rows(m: Tree, keys: seq<int>, mounts: Dict<string, Device>): (r: seq<RowView>)
    requires KeysOf(m, keys)
    ensures |r| == |Layout(m, keys)|
    ensures forall i :: 0 <= i < |r| ==> r[i].pid == Layout(m, keys)[i].pid
    ensures forall i :: 0 <= i < |r| ==>
              var v := Layout(m, keys)[i];
              v.pid in m && r[i] == Render(m[v.pid], v.pid, v.level, v.hasKids, mounts)
    ensures forall i :: 0 <= i < |r| ==> r[i].pid in m && r[i].expander == HasChild(m, r[i].pid)
    ensures forall i :: 0 <= i < |r| ==> (r[i].treeClass == RootRow <==> m[r[i].pid].ppid == 0)
    ensures forall i :: 0 <= i < |r| ==> r[i].indent == IndentOf(Layout(m, keys)[i].level)
    ensures forall i, j :: 0 <= i < j < |r| ==> r[i].pid != r[j].pid
  {
    var l := Layout(m, keys);
    LayoutSound(m, keys);
    var r := seq(|l|, i requires 0 <= i < |l| => Render(m[l[i].pid], l[i].pid, l[i].level, l[i].hasKids, mounts));
    assert forall i :: 0 <= i < |r| ==>
      && r[i].pid == l[i].pid && r[i].expander == l[i].hasKids
      && r[i].treeClass == TreeClassOf(m[l[i].pid].ppid) && r[i].indent == IndentOf(l[i].level);
    r
  }

  /* ---------------- interface lines ---------------- */

  /** An interface line of the inventory: name and value split at the
      first colon; `Inf` and the whole line when there is no colon. */
  function NetEntry(n: string): (r: (string, string))
    ensures ':' in n ==> r.0 + ":" + r.1 == n && ':' !in r.0
    ensures ':' !in n ==> r == ("Inf", n)
  {
    match SplitFirst(n, ':')
    case Some(kv) => kv
    case None => ("Inf", n)
  }

  /** Splitting `name:value` gives the name and value back when the name
      has no colon; the value may contain colons. */
  lemma NetEntryRoundTrip(k: string, v: string)
    requires ':' !in k
    ensures NetEntry(k + ":" + v) == (k, v)
  {
    var n := k + ":" + v;
    assert n[|k|] == ':';
    var r := NetEntry(n);
    forall j | 0 <= j < |k| ensures n[j] != ':' {
      assert n[j] == k[j] && k[j] in k;
    }
    assert n[|r.0|] == ':';
    forall j | 0 <= j < |r.0| ensures n[j] != ':' {
      assert n[j] == r.0[j] && r.0[j] in r.0;
    }
    assert r.0 == n[..|k|] == k;
    assert r.1 == n[|k| + 1..] == v;
  }
}
