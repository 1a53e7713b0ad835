# sys-inspector core, modelled in Dafny

sys-inspector is a Linux forensic inventory tool. Kernel probes (BPF) record
process executions, file opens, TCP connects and large reads and writes. A
user-space collector builds a process tree and an inventory of the host,
and an HTML report shows both. This project models the pure decisions at
the centre of that pipeline, and proves what they promise:

- **The probes** (`Probes`, from `bpf_programs.py`). Each of the five hooks
  is a function from what it observes to its return code and the
  `event_data_t` record it submits, if any. The inputs are the current task
  as read through the BPF helpers, the hook's arguments and the traced
  call's return value. The model covers the common header filled in by
  `populate_basic_info`, self-exclusion of the collector's pid, the strict
  4096-byte I/O threshold, bounded NUL-terminated string copies, and
  page counts shifted to bytes with 64-bit wrap-around.
- **The inventory parsers** (`Lsblk`, `Storage`, `SysInfo`, from
  `sys_info.py`).
  - `lsblk -P` lines are parsed into key/value maps by the regex scan.
    Devices are keyed by name and mounts by mount point.
  - In Python, the device dict and the mount dict hold the same dict
    objects. The model gives each line an identity and keeps that sharing
    explicit.
  - The single HCTL-inheritance pass runs in device-map order.
  - The OS name has a three-step fallback.
  - The CPU model and the total memory come from `/proc` text.
- **The report** (`Report`, `ProcessTree`, from `report_generator.py`).
  - Library paths are flagged as suspicious.
  - A file is looked up against the longest mount point that is a prefix
    of its path, which gives its disk label.
  - Per-row display rules: indentation, truncated command line, alerts and
    their order, sudo/ssh origin read from the context markers, nice value,
    I/O cell, warn class and tree class.
  - Libraries and files are listed in Python's sort order.
  - The interface line of the network section is split.
  - The depth-first walk lays out the process tree from its roots.

Supporting modules: `Base` holds the option, result and fixed-width
integer types. `Text` holds Python's string operations as the source uses
them:
- `startswith` and `in`;
- `find`;
- `strip()` and `strip('"')`;
- `split(c)`, `split(c, 1)` and `split()`;
- `int()`;
- truncating division.

`Sorting` holds `sorted` for pids and strings. `OrderedMap` holds the
insertion-ordered Python dict.

The process tree is the dict from pid to node, given as a Dafny map plus
the dict's keys in iteration order. Every node's pid is its key. The
walk's children are taken from a table, precomputed once per pid with the
same filter and sort as the source's per-visit comprehension.

The I/O threshold is the literal `4096` in both read/write probes
(`bpf_programs.py:99`, `:111`). The comparison is strict, so a 4096-byte
completion is suppressed.

## Model

| member | source | states |
|---|---|---|
| Probes.CurrentPid | src/sys_inspector/bpf_programs.py:36-37 | the pid is the upper 32 bits of the pid/tgid word: `pid * 2^32 <= id < (pid + 1) * 2^32` |
| Probes.CopyCString | src/sys_inspector/bpf_programs.py:50 | a bounded string copy fills exactly `size` bytes and always ends in NUL |
| Probes.CopyCStringRoundTrip | src/sys_inspector/bpf_programs.py:50 | reading back a copied NUL-free string gives the string, cut to `size - 1` bytes when it does not fit |
| Probes.ReadUserString | src/sys_inspector/bpf_programs.py:65 | the filename field is 256 bytes, NUL-terminated, and all zero when the user read faults |
| Probes.PagesToBytes | src/sys_inspector/bpf_programs.py:53-54 | `<< 12` gives a multiple of 4096 that equals pages * 4096 whenever that fits in 64 bits |
| Probes.PopulateBasicInfo | src/sys_inspector/bpf_programs.py:35-57 | no record exactly when the current pid is the collector's. Otherwise: the pid is the tgid half, the uid is the low 32 bits, ppid is the real parent's tgid, prio is the task's, comm is the bounded copy. With an mm, vsz and peak rss are the page counts times 4096 modulo 2^64; without one they are zero. Every other field is still zero |
| Probes.RunHook | src/sys_inspector/bpf_programs.py:61-114 | every hook returns 0. A record is submitted iff the task is not the collector and, for read/write, the return value exceeds 4096. The record carries the hook's type tag, the I/O size for read/write and the user path for execve/openat |
| Probes.NeverReportsCollector | src/sys_inspector/bpf_programs.py:39 | no hook ever submits a record for the collector's own pid |
| Probes.SharedHeader | src/sys_inspector/bpf_programs.py:61-114 | every submitted record carries the header that `populate_basic_info` computes for that task |
| Probes.UnsetFieldsAreZero | src/sys_inspector/bpf_programs.py:61-114 | a hook leaves other hooks' fields zero: I/O size, path and addresses |
| Probes.IoThresholdBoundary | src/sys_inspector/bpf_programs.py:92-114 | a 4096-byte read or write is not reported and a 4097-byte one is |
| Probes.MemoryFields | src/sys_inspector/bpf_programs.py:52-55 | vsz and peak rss are the mm counters times 4096 modulo 2^64, and zero without an mm |
| Probes.ConnectAddresses | src/sys_inspector/bpf_programs.py:83-87 | the connect record carries the sockaddr's address and port and the socket's source address and port |
| Lsblk.MatchPair | src/sys_inspector/sys_info.py:153 | a match at the start of the text is exactly a rendered `KEY="value"` with a word-character key and a quote-free value. No match when the text does not start with a word character |
| Lsblk.ScanPairs | src/sys_inspector/sys_info.py:153 | every match has a word-character key and a value without `"` |
| Lsblk.NoQuoteNoPairs | src/sys_inspector/sys_info.py:153 | a line without a double quote, such as `N/A`, yields no pairs |
| Lsblk.ScanRenderRoundTrip | src/sys_inspector/sys_info.py:153 | scanning a space-separated rendering of well-formed pairs returns those pairs, in order |
| Lsblk.FieldsOfSpec | src/sys_inspector/sys_info.py:152-154 | the field map's keys are exactly the lower-cased keys, and the last pair with a given lower-cased key wins |
| Lsblk.LowerColumns | src/sys_inspector/sys_info.py:145-154 | lower-casing each column name of the `lsblk` request gives the key the collector looks up: `name`, `kname`, `pkname`, `mountpoint`, `hctl` and the rest |
| Lsblk.RenderedFields | src/sys_inspector/sys_info.py:152-154 | for a line of pairs whose keys differ after lower-casing, the field map holds exactly the lower-cased keys, each with its own value |
| Lsblk.ColumnFields | src/sys_inspector/sys_info.py:145-154 | a line `lsblk -P` prints for the fourteen requested columns, with quote-free values, yields exactly the fourteen lower-case keys, each with its column's value |
| Storage.GlobSuffix | src/sys_inspector/sys_info.py:160-163 | the names returned are exactly the non-hidden entries that end with the device name |
| Storage.FilterOrder | src/sys_inspector/sys_info.py:160-163 | a filter returns the accepted elements at strictly increasing positions of its input, all of them, and none is accepted before the first |
| Storage.GlobSuffixOrder | src/sys_inspector/sys_info.py:160-163 | the matches come in listing order and include every matching entry, so the first path is the first matching entry of the listing |
| Storage.LastNamed | src/sys_inspector/sys_info.py:167 | reference: the index of the last line carrying a name, or none when no line does |
| Storage.LastMounted | src/sys_inspector/sys_info.py:168-169 | reference: the index of the last line with a given non-empty mount point, or none |
| Storage.BuildIndexFails | src/sys_inspector/sys_info.py:151-169 | the loop fails iff some line has no `name`, and it reports the first such line |
| Storage.BuildIndexSucceeds | src/sys_inspector/sys_info.py:151-169 | on success each name maps to the last line with that name, and each non-empty mount point to the last line mounted there |
| Storage.BuildIndexOrder | src/sys_inspector/sys_info.py:167 | dict insertion order: on success the device names come in the order of the lines on which each first appears |
| Storage.InheritHctl | src/sys_inspector/sys_info.py:171-175 | the pass changes only `hctl`. It changes only devices without one that are still in the device map, and each ends with the HCTL its parent has when the pass reaches it |
| Storage.GetStorageMap | src/sys_inspector/sys_info.py:145-177 | a failure names a line of the output |
| Storage.StorageMapFails | src/sys_inspector/sys_info.py:167 | `KeyError` happens exactly when some line has no `name`, at the first such line |
| Storage.FailedCommandFails | src/sys_inspector/sys_info.py:38-39 | output whose first line has no key/value pair, such as the `N/A` of a failed command, fails at line 0 |
| Storage.StorageMapDevices | src/sys_inspector/sys_info.py:167-177 | the device list has one entry per distinct name, in the order of each name's first line. Each entry is the last line with that name, changed at most in `hctl` |
| Storage.StorageMapCovers | src/sys_inspector/sys_info.py:167-177 | every line's name appears in the device list |
| Storage.StorageMapMounts | src/sys_inspector/sys_info.py:168-169 | a mount point has an entry iff some line is mounted there, and the entry is the last such line, changed at most in `hctl` |
| Storage.StorageMapAliasing | src/sys_inspector/sys_info.py:167-177 | a mount entry is the same object as its name's device entry, inherited HCTL included. When a later line with the same name replaced it, it is the line as parsed |
| Storage.StorageMapHctl | src/sys_inspector/sys_info.py:171-175 | after the pass every listed device has the HCTL the single in-order pass defines |
| Storage.SinglePassOrder | src/sys_inspector/sys_info.py:171-175 | the pass is single and in map order. A grandchild listed before its parent stays without HCTL while its parent inherits the disk's |
| OrderedMap.PutGet | src/sys_inspector/sys_info.py:167-169 | dict assignment makes the key read back the new value and leaves every other key's value alone |
| OrderedMap.PutShape | src/sys_inspector/sys_info.py:167-169 | dict assignment keeps the key order, appending a new key at the end |
| SysInfo.PrettyName | src/sys_inspector/sys_info.py:63-66 | with no `PRETTY_NAME=` line the name stays empty |
| SysInfo.PrettyNameFirst | src/sys_inspector/sys_info.py:63-66 | the first `PRETTY_NAME=` line decides, whatever follows |
| SysInfo.PrettyNameRoundTrip | src/sys_inspector/sys_info.py:65 | `PRETTY_NAME="v"` with its newline reads back as `v` |
| Text.StripByPadded | src/sys_inspector/sys_info.py:65 | `strip` removes exactly the padding around a core that neither starts nor ends with a stripped character |
| SysInfo.IssueName | src/sys_inspector/sys_info.py:74 | the issue name contains no backslash |
| Text.BeforeFirst | src/sys_inspector/sys_info.py:74 | `split(c)[0]` of `v + c + rest` is `v` when `v` has no `c` |
| SysInfo.IssueNameRoundTrip | src/sys_inspector/sys_info.py:74 | an issue file `NAME \n \l` names the system `NAME` |
| SysInfo.OsPrettyName | src/sys_inspector/sys_info.py:59-83 | the name is never empty. It is the os-release name when that is non-empty, else the issue name when that is non-empty, else `system release`; a missing file counts as an empty name |
| SysInfo.OsNameFromRelease | src/sys_inspector/sys_info.py:59-83 | a non-empty os-release name wins over every fallback |
| SysInfo.CpuFromLines | src/sys_inspector/sys_info.py:105-112 | with no `model name` line the CPU is `Unknown` |
| Text.SplitJoin | src/sys_inspector/sys_info.py:111 | `split(c)` inverts joining with `c` parts that do not contain `c` |
| SysInfo.CpuModelRoundTrip | src/sys_inspector/sys_info.py:107-114 | the first `model name\t: v` line reads back as `v` |
| Text.WordsSpread | src/sys_inspector/sys_info.py:117 | `split()` recovers the tokens whatever non-empty whitespace separates them and whatever whitespace surrounds them |
| Text.ParseIntShow | src/sys_inspector/sys_info.py:117 | `int()` reads back the decimal text of any integer |
| Text.TruncDiv | src/sys_inspector/sys_info.py:117 | division by 1024 truncates toward zero, for negative values too |
| SysInfo.MemMbRoundTrip | src/sys_inspector/sys_info.py:115-119 | a first line `MemTotal: n kB`, with any whitespace around and between its tokens, newline included, gives n KiB in whole MiB, truncated toward zero |
| Report.StartsWithAny | src/sys_inspector/report_generator.py:220 | `startswith` with a tuple holds iff some listed prefix starts the text |
| Report.SuspiciousLibIff | src/sys_inspector/report_generator.py:217-222 | a library is flagged iff its path starts with `/tmp/`, `/var/tmp/`, `/dev/shm/` or `/home/`, or contains `(deleted)` somewhere |
| Report.DeletedMappingFlagged | src/sys_inspector/report_generator.py:220 | any mapping whose path ends in ` (deleted)` is flagged |
| Report.SystemLibNotFlagged | src/sys_inspector/report_generator.py:217-222 | a path under `/usr/` or `/lib` without `(` is never flagged |
| Report.Pick | src/sys_inspector/report_generator.py:192-197 | the chosen mount point is a non-empty prefix of the path of maximal length. It is the first among equals, and nothing is chosen only when the empty mount point is the only prefix |
| Report.BestMountIff | src/sys_inspector/report_generator.py:192-197 | the lookup picks entry `i` iff `i` is the earliest longest non-empty mount-point prefix of the path |
| Report.LabelOf | src/sys_inspector/report_generator.py:199-213 | a device gives a disk label. Its filesystem, name and UUID are the device's fields, or `N/A` when absent. Its HCTL shows `N/A` iff the device's is missing, empty or `N/A`, and its path is the first persistent path iff there is one |
| Report.DiskLabelOfLongest | src/sys_inspector/report_generator.py:192-213 | when the earliest longest prefix belongs to a non-empty device, the file's label is that device's |
| Report.DiskLabelPseudo | src/sys_inspector/report_generator.py:199-214 | the label is the pseudo/virtual one iff the best mount's device is empty or no mount point matches |
| Report.ShownCmd | src/sys_inspector/report_generator.py:232 | a command under 80 characters is shown whole. A longer one shows its first 80 characters and `...` |
| Report.ShownCmdIdempotent | src/sys_inspector/report_generator.py:232 | shortening twice is shortening once. The shown command has at most 83 characters and starts with any command of up to 80 |
| Report.IndentOf | src/sys_inspector/report_generator.py:227-229 | the padding is 25 px per level, and the branch marker shows iff the level is positive |
| Report.NiceOf | src/sys_inspector/report_generator.py:307 | the shown nice value plus 120 is the priority, and it is red iff negative |
| Report.IoOf | src/sys_inspector/report_generator.py:309-313 | no I/O cell iff neither delta is positive. A positive write delta wins over a read delta, and the shown amount is positive |
| Report.AlertsOf | src/sys_inspector/report_generator.py:235-242 | SSH iff `[SSH:` occurs, SUDO iff `[SUDO:` occurs, WARN iff the score is positive, in that order |
| Report.TreeClassOf | src/sys_inspector/report_generator.py:376-379 | a root row iff the parent pid is 0, otherwise the child class of its parent |
| Report.MarkerValue | src/sys_inspector/report_generator.py:254-255 | an origin is read iff its marker occurs, and it contains no `]` |
| Report.MarkerRoundTrip | src/sys_inspector/report_generator.py:254-255 | a context `pre[MARK:v]post` reads back `v` when `pre` and `v` have no brackets |
| Report.SudoOriginRoundTrip | src/sys_inspector/report_generator.py:254 | a context carrying `[SUDO:user]` reads back `user` |
| Sorting.Sort | src/sys_inspector/report_generator.py:271 | `sorted` returns an ordered permutation of its input |
| Sorting.SortKeeps | src/sys_inspector/report_generator.py:372 | sorting keeps the length and the elements, and adds no repeats |
| Report.LibLines | src/sys_inspector/report_generator.py:269-276 | libraries are listed in Python string order as a permutation of the input, each flagged iff it is suspicious |
| Report.FileLines | src/sys_inspector/report_generator.py:283-286 | files are listed in Python string order as a permutation of the input, each with its disk label |
| Report.Render | src/sys_inspector/report_generator.py:225-313 | the row is a warn row iff it shows a WARN alert. It shows a sudo or ssh origin iff it shows that badge, and an expander iff the has-children flag it is rendered with is set |
| ProcessTree.Children | src/sys_inspector/report_generator.py:372 | the children of `p` are strictly ascending and are exactly the nodes whose parent is `p` |
| ProcessTree.Roots | src/sys_inspector/report_generator.py:385-386 | the roots are strictly ascending and are exactly the positive pids whose parent is not in the tree |
| ProcessTree.ChildTable | src/sys_inspector/report_generator.py:372 | each pid's entry holds exactly its children, strictly ascending |
| ProcessTree.Walk | src/sys_inspector/report_generator.py:367-383 | the walk's first row is its node, at its level, with an expander iff it has children |
| ProcessTree.LayoutParts | src/sys_inspector/report_generator.py:385-386 | a pid is a root iff it is a node at depth 0 of an upward chain |
| ProcessTree.WalkReaches | src/sys_inspector/report_generator.py:382-383 | the walk from a node reaches every node below it, at its own depth |
| ProcessTree.LayoutSound | src/sys_inspector/report_generator.py:367-387 | every row is a tree node whose parent links lead up to a root in exactly its level. Its expander shows iff it has children, and no pid is laid out twice |
| ProcessTree.LayoutComplete | src/sys_inspector/report_generator.py:367-387 | every node whose parent links lead to a root in `e` steps is laid out at level `e`, with its expander |
| ProcessTree.WalkPreorder | src/sys_inspector/report_generator.py:367-383 | one walk's rows are a preorder: each row at most one level deeper than the previous and then its child, ancestors first, each subtree one block, siblings in ascending pid |
| ProcessTree.LayoutPreorder | src/sys_inspector/report_generator.py:367-387 | the whole layout is a preorder that starts with a root: ancestors first, each subtree one contiguous block, and siblings and roots in ascending pid |
| ProcessTree.LayoutParentRow | src/sys_inspector/report_generator.py:367-387 | every row below level 0 has its parent's row before it, one level up, with only rows at least as deep in between |
| ProcessTree.CycleHidden | src/sys_inspector/report_generator.py:385-387 | a node on a cycle of parent links is never laid out |
| ProcessTree.ZeroHidden | src/sys_inspector/report_generator.py:385 | a pid-0 node whose parent is itself or absent is above no laid-out node |
| Report.Rows | src/sys_inspector/report_generator.py:365-387 | row `i` is the rendering of the `i`-th laid-out node, with that node's pid, level and has-children flag, so the soundness, completeness and preorder of the layout hold for the rows. Each row is a tree node with distinct pid, the expander shows iff it has children, the root class applies iff its parent pid is 0, and the indentation matches its level |
| Report.NetEntry | src/sys_inspector/report_generator.py:356-363 | a line with `:` splits at its first colon. A line without one is shown under `Inf` |
| Report.NetEntryRoundTrip | src/sys_inspector/report_generator.py:358-360 | `k:v` with a colon-free `k` splits back into `k` and `v` |

## Left out

- The BPF program's compilation and loading, the perf-buffer transport and the `FILTER_PID` text substitution are out of scope. The collector pid is a parameter of every hook.
- The BPF helpers (`bpf_get_current_pid_tgid`, `bpf_get_current_task`, `bpf_probe_read*`, `bpf_get_current_comm`) become inputs: the `Task` record, an optional sockaddr and optional user strings. Kernel concurrency is not modelled.
- The subprocess, glob, socket, platform and file reads in `sys_info.py` become inputs. The `lsblk` output arrives as its lines, and the `/dev/disk` listings arrive as base names. `splitlines` and the outer `strip` of `_run_cmd` are left out.
- `get_os_info` hostname, kernel and uptime (floating-point parsing and `timedelta` formatting), and `get_network`, which only splits command output into lines.
- `Storage.Device` keeps `paths` and `ids` as separate fields rather than dict keys. A line whose own fields are named `paths` or `ids` would be overwritten in the source; the model does not model that collision.
- Text.Lower: lower-cases ASCII letters only, because `lsblk` column names are ASCII; Python's full Unicode case mapping is not modelled.
- SysInfo.MemMbRoundTrip: the source divides as a float before truncating. The model divides exactly, which agrees whenever the kB value is below 2^53.
- Text.ParseInt accepts ASCII digits only; Python's `int()` also accepts other Unicode decimal digits, which `/proc/meminfo` does not contain.
- The regex class `\w` is read as ASCII letters, digits and `_`; `lsblk` column names are ASCII, and non-ASCII word characters are not modelled.
- Characters are Unicode code points; there is no encoding or decoding of bytes.
- Report HTML markup, CSS classes, the template and its placeholders are left out. Each row is a `RowView` record of the decisions that shape it: indentation, expander, badge, alerts, origins, classes, cells.
- `get_username` (a `pwd` lookup) is not modelled.
- The floating-point text is not modelled: rss in MB, the CPU percentage and lifetime MB. The row keeps the CPU cell's `cpu-hi` decision (`report_generator.py:305-306`).
- The OS section's `k.title()` is not modelled, and neither is the disk summary that lists devices of type `disk` (`report_generator.py:350-354`).
- The row text's `class="row` replacement is modelled as the row's tree class, not as a string replacement.
- `walk` recurses once per level, so in Python a parent chain deeper than the interpreter's recursion limit (about 1000) raises `RecursionError`. The model's walk has no depth limit.
- `walk`'s `pid not in tree` guard is never taken for roots and children drawn from the tree, so the model requires the walked pid to be a node.
- The tree is keyed by pid, and each node's pid is its key.
- The children of each pid are computed once into a table rather than on each visit. They are the same sorted lists, because the tree does not change during the walk.
- The correlation engine, which fills the tree, and the command-line entry point are not part of this model.
