/** The kernel probes as pure record builders. Each hook is a function from
    what it observes (the current task through BPF helpers, its arguments or
    the traced call's return value) to its return code and the record it
    submits to the perf buffer, if any. Helper calls become inputs; the
    perf-buffer transport is left out. */
module Probes {
  import opened Base

  /** TASK_COMM_LEN */
  const COMM_LEN: nat := 16
  /** Size of `event_data_t.filename`. */
  const FILENAME_LEN: nat := 256
  /** Read/write completions of at most this many bytes are not reported. */
  const IO_MIN_BYTES: int := 4096
  /** `<< 12`: pages of 4096 bytes. */
  const PAGE_SIZE: int := 4096

  /** Counters of `task->mm`. */
  datatype MmCounters = MmCounters(totalVm: u64, hiwaterRss: u64)

  /** What `populate_basic_info` reads about the current task. */
  datatype Task = Task(
    pidTgid: u64,             // bpf_get_current_pid_tgid(): tgid in the upper half
    uidGid: u64,              // bpf_get_current_uid_gid(): uid in the lower half
    parentTgid: u32,          // task->real_parent->tgid
    prio: i32,                // task->prio
    comm: seq<u8>,            // task->comm
    mm: Option<MmCounters>)   // task->mm, None when it is null

  /** `struct sockaddr_in` as seen by the connect probe. */
  datatype SockAddrIn = SockAddrIn(addr: u32, port: u16)

  /** `struct event_data_t`, the fixed-layout record sent to user space. */
  datatype EventData = EventData(
    pid: u32, ppid: u32, uid: u32,
    comm: seq<u8>, filename: seq<u8>,
    typeId: char,
    saddr: u32, daddr: u32, sport: u16, dport: u16,
    memVsz: u64, memPeakRss: u64, ioBytes: u64,
    prio: i32)

  /** One firing of one of the five hooks, with the hook's own inputs. A
      user string is `None` when reading it faults. */
  datatype Hook =
    | Execve(path: Option<seq<u8>>)
    | Openat(path: Option<seq<u8>>)
    | TcpV4Connect(dest: Option<SockAddrIn>, rcvSaddr: u32, num: u16)
    | VfsReadReturn(ret: i64)
    | VfsWriteReturn(ret: i64)

  /** What a hook hands back: its return code and the submitted record. */
  datatype HookResult = HookResult(code: int, submitted: Option<EventData>)

  function Zeros(n: nat): (z: seq<u8>)
    ensures |z| == n
    ensures forall i :: 0 <= i < n ==> z[i] == 0
  {
    seq(n, _ => 0)
  }

  predicate AllZero(s: seq<u8>) {
    forall i :: 0 <= i < |s| ==> s[i] == 0
  }

  /** `struct event_data_t data = {};` */
  const EMPTY: EventData :=
    EventData(0, 0, 0, Zeros(COMM_LEN), Zeros(FILENAME_LEN), '\0', 0, 0, 0, 0, 0, 0, 0, 0)

  /** The process id: the upper 32 bits of pid_tgid. */
  function CurrentPid(t: Task): (pid: u32)
    ensures pid * TWO_32 <= t.pidTgid < pid * TWO_32 + TWO_32
  {
    t.pidTgid / TWO_32
  }

  /* ---------------- C strings ---------------- */

  /** Length of the NUL-terminated string at the start of `src`, at most `cap`. */
  function CStrLen(src: seq<u8>, cap: nat): (n: nat)
    ensures n <= cap && n <= |src|
    ensures forall i :: 0 <= i < n ==> src[i] != 0
    ensures n < cap && n < |src| ==> src[n] == 0
  {
    if cap == 0 || |src| == 0 || src[0] == 0 then 0 else 1 + CStrLen(src[1..], cap - 1)
  }

  /** A bounded string copy into a zeroed buffer of `size` bytes, as
      `bpf_probe_read_user_str` and `bpf_get_current_comm` do: at most
      `size - 1` bytes up to the first NUL, always NUL-terminated. */
  function CopyCString(src: seq<u8>, size: nat): (r: seq<u8>)
    requires size > 0
    ensures |r| == size
    ensures r[size - 1] == 0
  {
    var n := CStrLen(src, size - 1);
    src[..n] + Zeros(size - n)
  }

  /** The string a reader of a NUL-terminated buffer sees. */
  function CStringOf(buf: seq<u8>): seq<u8> {
    buf[..CStrLen(buf, |buf|)]
  }

  /** Copying a NUL-free string and reading it back returns the string,
      cut to `size - 1` bytes when it does not fit. */
  lemma CopyCStringRoundTrip(s: seq<u8>, size: nat)
    requires size > 0
    requires forall i :: 0 <= i < |s| ==> s[i] != 0
    ensures CStringOf(CopyCString(s, size)) == if |s| < size then s else s[..size - 1]
  {
    var n := CStrLen(s, size - 1);
    var r := CopyCString(s, size);
    assert n == if |s| < size then |s| else size - 1;
    assert r[n] == 0;
    CStrLenAt(r, n);
    assert r[..n] == s[..n];
  }

  lemma CStrLenAt(buf: seq<u8>, n: nat)
    requires n < |buf| && buf[n] == 0
    requires forall i :: 0 <= i < n ==> buf[i] != 0
    ensures CStrLen(buf, |buf|) == n
  {
    if n > 0 {
      CStrLenAt(buf[1..], n - 1);
    }
  }

  /** `bpf_probe_read_user_str` into a zeroed 256-byte field: on a fault the
      helper clears the destination. */
  function ReadUserString(src: Option<seq<u8>>): (r: seq<u8>)
    ensures |r| == FILENAME_LEN && r[FILENAME_LEN - 1] == 0
    ensures src.None? ==> AllZero(r)
  {
    match src
    case None => Zeros(FILENAME_LEN)
    case Some(s) => CopyCString(s, FILENAME_LEN)
  }

  /* ---------------- populate_basic_info ---------------- */

  /** `x << 12` on an unsigned 64-bit value. */
  function PagesToBytes(pages: u64): (b: u64)
    ensures b % PAGE_SIZE == 0
    ensures pages * PAGE_SIZE < TWO_64 ==> b == pages * PAGE_SIZE
  {
    (pages * PAGE_SIZE) % TWO_64
  }

  /** `populate_basic_info`: `None` when it returns 1 (the current process
      is the collector), otherwise the zeroed record with its common header
      filled in. */
  function PopulateBasicInfo(filterPid: u32, t: Task): (r: Option<EventData>)
    ensures r.None? <==> CurrentPid(t) == filterPid
    ensures r.Some? ==> r.value.pid != filterPid
    ensures r.Some? ==> r.value.pid * TWO_32 <= t.pidTgid < r.value.pid * TWO_32 + TWO_32
    ensures r.Some? ==> r.value.uid < TWO_32 && (t.uidGid - r.value.uid) % TWO_32 == 0
    ensures r.Some? ==> r.value.ppid == t.parentTgid && r.value.prio == t.prio
    ensures r.Some? && t.mm.None? ==> r.value.memVsz == 0 && r.value.memPeakRss == 0
    ensures r.Some? && t.mm.Some? ==>
              && r.value.memVsz == (t.mm.value.totalVm * PAGE_SIZE) % TWO_64
              && r.value.memPeakRss == (t.mm.value.hiwaterRss * PAGE_SIZE) % TWO_64
    ensures r.Some? ==> CStringOf(r.value.comm) == CStringOf(CopyCString(t.comm, COMM_LEN))
    ensures r.Some? ==> r.value.(pid := 0, ppid := 0, uid := 0, comm := EMPTY.comm, prio := 0,
                                 memVsz := 0, memPeakRss := 0) == EMPTY
  {
    var pid := CurrentPid(t);
    if pid == filterPid then None
    else
      var d := EMPTY.(pid := pid, uid := t.uidGid % TWO_32, ppid := t.parentTgid,
                      prio := t.prio, comm := CopyCString(t.comm, COMM_LEN));
      match t.mm
      case None => Some(d)
      case Some(mm) =>
        Some(d.(memVsz := PagesToBytes(mm.totalVm), memPeakRss := PagesToBytes(mm.hiwaterRss)))
  }

  /** The common header of a record: what `populate_basic_info` fills in. */
  function Header(e: EventData): (u32, u32, u32, seq<u8>, i32, u64, u64) {
    (e.pid, e.ppid, e.uid, e.comm, e.prio, e.memVsz, e.memPeakRss)
  }

  /* ---------------- hooks ---------------- */

  /** `syscall__execve` and `syscall__openat`: tag and copy the path. */
  function PathHook(filterPid: u32, t: Task, tag: char, path: Option<seq<u8>>): HookResult {
    match PopulateBasicInfo(filterPid, t)
    case None => HookResult(0, None)
    case Some(d) => HookResult(0, Some(d.(typeId := tag, filename := ReadUserString(path))))
  }

  /** `kprobe__tcp_v4_connect`: destination from the sockaddr argument (a
      faulting read leaves zeros), source from the socket. */
  function ConnectHook(filterPid: u32, t: Task, dest: Option<SockAddrIn>, rcvSaddr: u32, num: u16): HookResult {
    match PopulateBasicInfo(filterPid, t)
    case None => HookResult(0, None)
    case Some(d) =>
      var daddr := if dest.Some? then dest.value.addr else 0;
      var dport := if dest.Some? then dest.value.port else 0;
      HookResult(0, Some(d.(typeId := 'N', daddr := daddr, dport := dport, saddr := rcvSaddr, sport := num)))
  }

  /** `kretprobe__vfs_read` and `kretprobe__vfs_write`: only successful
      calls are examined, and only those of more than 4096 bytes submitted. */
  function IoHook(filterPid: u32, t: Task, tag: char, ret: i64): HookResult {
    if ret > 0 then
      match PopulateBasicInfo(filterPid, t)
      case None => HookResult(0, None)
      case Some(d) =>
        var e := d.(typeId := tag, ioBytes := ret);
        if e.ioBytes > IO_MIN_BYTES then HookResult(0, Some(e)) else HookResult(0, None)
    else HookResult(0, None)
  }

  /** The type tag each hook writes into `type_id`. */
  function TypeTag(h: Hook): char {
    match h
    case Execve(_) => 'E'
    case Openat(_) => 'O'
    case TcpV4Connect(_, _, _) => 'N'
    case VfsReadReturn(_) => 'R'
    case VfsWriteReturn(_) => 'W'
  }

  /** One firing of a hook. */
  function RunHook(filterPid: u32, t: Task, h: Hook): (r: HookResult)
    ensures r.code == 0
    ensures r.submitted.Some? ==> r.submitted.value.typeId == TypeTag(h)
    ensures r.submitted.Some? ==> r.submitted.value.pid == CurrentPid(t) != filterPid
    ensures !h.VfsReadReturn? && !h.VfsWriteReturn? ==>
              (r.submitted.Some? <==> CurrentPid(t) != filterPid)
    ensures h.VfsReadReturn? || h.VfsWriteReturn? ==>
              (r.submitted.Some? <==> CurrentPid(t) != filterPid && h.ret > IO_MIN_BYTES)
    ensures r.submitted.Some? && (h.VfsReadReturn? || h.VfsWriteReturn?) ==>
              r.submitted.value.ioBytes == h.ret
    ensures r.submitted.Some? && (h.Execve? || h.Openat?) ==>
              CStringOf(r.submitted.value.filename) == CStringOf(ReadUserString(h.path))
  {
    match h
    case Execve(p) => PathHook(filterPid, t, 'E', p)
    case Openat(p) => PathHook(filterPid, t, 'O', p)
    case TcpV4Connect(dest, saddr, num) => ConnectHook(filterPid, t, dest, saddr, num)
    case VfsReadReturn(ret) => IoHook(filterPid, t, 'R', ret)
    case VfsWriteReturn(ret) => IoHook(filterPid, t, 'W', ret)
  }

  /* ---------------- properties across hooks ---------------- */

  /** The collector never reports on itself, whatever hook fires. */
  lemma NeverReportsCollector(filterPid: u32, t: Task, h: Hook)
    requires CurrentPid(t) == filterPid
    ensures RunHook(filterPid, t, h).submitted.None?
  {
  }

  /** Every hook that submits a record carries the same common header for
      the same task: the one `populate_basic_info` computes. */
  lemma SharedHeader(filterPid: u32, t: Task, h: Hook)
    requires RunHook(filterPid, t, h).submitted.Some?
    ensures PopulateBasicInfo(filterPid, t).Some?
    ensures Header(RunHook(filterPid, t, h).submitted.value) == Header(PopulateBasicInfo(filterPid, t).value)
  {
  }

  /** Fields a hook does not set keep the zero of the initialised record:
      no I/O size outside the read/write hooks, no path outside execve and
      openat, no addresses outside connect. */
  lemma UnsetFieldsAreZero(filterPid: u32, t: Task, h: Hook)
    requires RunHook(filterPid, t, h).submitted.Some?
    ensures var e := RunHook(filterPid, t, h).submitted.value;
      && (!h.VfsReadReturn? && !h.VfsWriteReturn? ==> e.ioBytes == 0)
      && (!h.Execve? && !h.Openat? ==> e.filename == Zeros(FILENAME_LEN))
      && (!h.TcpV4Connect? ==> e.saddr == 0 && e.daddr == 0 && e.sport == 0 && e.dport == 0)
  {
    var d := PopulateBasicInfo(filterPid, t).value;
    assert d.ioBytes == 0 && d.filename == Zeros(FILENAME_LEN) && d.saddr == 0 && d.daddr == 0;
  }

  /** The I/O threshold is strict: a 4096-byte read is not reported, a
      4097-byte read is (for any process other than the collector). */
  lemma IoThresholdBoundary(filterPid: u32, t: Task)
    requires CurrentPid(t) != filterPid
    ensures RunHook(filterPid, t, VfsReadReturn(4096)).submitted.None?
    ensures RunHook(filterPid, t, VfsReadReturn(4097)).submitted.Some?
    ensures RunHook(filterPid, t, VfsWriteReturn(4096)).submitted.None?
    ensures RunHook(filterPid, t, VfsWriteReturn(4097)).submitted.Some?
  {
  }

  /** Memory counters are pages scaled to bytes, wrapping at 2^64, and zero
      when the task has no memory map. */
  lemma MemoryFields(filterPid: u32, t: Task)
    requires CurrentPid(t) != filterPid
    ensures var d := PopulateBasicInfo(filterPid, t).value;
      match t.mm
      case None => d.memVsz == 0 && d.memPeakRss == 0
      case Some(mm) =>
        && d.memVsz == (mm.totalVm * PAGE_SIZE) % TWO_64
        && d.memPeakRss == (mm.hiwaterRss * PAGE_SIZE) % TWO_64
  {
  }

  /** A connect record carries the destination read from the sockaddr and
      the source read from the socket. */
  lemma ConnectAddresses(filterPid: u32, t: Task, dest: SockAddrIn, saddr: u32, sport: u16)
    requires CurrentPid(t) != filterPid
    ensures var e := RunHook(filterPid, t, TcpV4Connect(Some(dest), saddr, sport)).submitted.value;
      e.daddr == dest.addr && e.dport == dest.port && e.saddr == saddr && e.sport == sport
  {
  }
}
