/** The storage map of the inventory: devices keyed by name, mounts keyed
    by mount point, and the single pass that lets a partition inherit the
    SCSI address (HCTL) of its parent disk. The command output and the
    `/dev/disk/by-path` and `/dev/disk/by-id` listings are inputs.

    In the source, the mount map and the device map hold the same dict
    objects, so the HCTL pass is visible through both. The model gives each
    parsed line an identity, its index, and keeps the records separately. */
module Storage {
  import opened Base
  import opened Text
  import opened Lsblk
  import opened OrderedMap

  /** One parsed line: the fields and, when the line names a kernel device,
      the matching persistent path and id names. */
  datatype Device = Device(fields: map<string, string>, paths: Option<seq<string>>, ids: Option<seq<string>>)

  /** Python `d.get(key)` read as a string, `''` when absent. */
  function Field(d: Device, key: string): string {
    Lookup(d.fields, key)
  }

  /** Python truthiness of the device dict. */
  predicate Truthy(d: Device) {
    d.fields != map[] || d.paths.Some? || d.ids.Some?
  }

  /** Whether a glob of the form `*NAME` matches entry `e`: `e` ends with
      `name` and is not hidden. */
  predicate GlobMatches(e: string, name: string) {
    |name| <= |e| && e[|e| - |name|..] == name && (|e| == 0 || e[0] != '.')
  }

  /** The elements of `s` that `keep` accepts, in order. */
  function Filter<T(==,!new)>(s: seq<T>, keep: T -> bool): (r: seq<T>)
    ensures forall e :: e in r <==> e in s && keep(e)
    ensures |r| <= |s|
  {
    if |s| == 0 then []
    else (if keep(s[0]) then [s[0]] else []) + Filter(s[1..], keep)
  }

  /** The order facts `FilterOrder` states, for a candidate index list. */
  ghost predicate OrderedBy<T(!new)>(s: seq<T>, keep: T -> bool, f: seq<T>, idx: seq<nat>)
  {
    && |idx| == |f|
    && (forall i :: 0 <= i < |idx| ==> idx[i] < |s| && f[i] == s[idx[i]])
    && (forall i, j :: 0 <= i < j < |idx| ==> idx[i] < idx[j])
    && (forall k :: 0 <= k < |s| && keep(s[k]) ==> k in idx)
    && (|idx| > 0 ==> forall k :: 0 <= k < idx[0] ==> !keep(s[k]))
  }

  /** A filter keeps the order: what it returns sits at strictly increasing
      positions of `s`, and every accepted element is among them. */
  lemma {:induction false} FilterOrder<T(!new)>(s: seq<T>, keep: T -> bool) returns (idx: seq<nat>)
    ensures OrderedBy(s, keep, Filter(s, keep), idx)
  {
    if |s| == 0 {
      idx := [];
    } else {
      var tail := s[1..];
      var rest := FilterOrder(tail, keep);
      if keep(s[0]) {
        assert Filter(s, keep) == [s[0]] + Filter(tail, keep);
        idx := KeepStep(s, keep, Filter(tail, keep), rest);
      } else {
        assert Filter(s, keep) == Filter(tail, keep);
        idx := SkipStep(s, keep, Filter(tail, keep), rest);
      }
    }
  }

  /** `FilterOrder`'s step when the first element is accepted. */
  lemma KeepStep<T(!new)>(s: seq<T>, keep: T -> bool, f: seq<T>, rest: seq<nat>) returns (idx: seq<nat>)
    requires |s| > 0 && keep(s[0]) && OrderedBy(s[1..], keep, f, rest)
    ensures OrderedBy(s, keep, [s[0]] + f, idx)
  {
    var tail := s[1..];
    var shifted := Shift(tail, s, rest);
    idx := [0] + shifted;
    forall k | 0 <= k < |s| && keep(s[k]) ensures k in idx {
      if k > 0 {
        assert tail[k - 1] == s[k];
      }
    }
  }

  /** `FilterOrder`'s step when the first element is rejected. */
  lemma SkipStep<T(!new)>(s: seq<T>, keep: T -> bool, f: seq<T>, rest: seq<nat>) returns (idx: seq<nat>)
    requires |s| > 0 && !keep(s[0]) && OrderedBy(s[1..], keep, f, rest)
    ensures OrderedBy(s, keep, f, idx)
  {
    var tail := s[1..];
    idx := Shift(tail, s, rest);
    forall k | 0 <= k < |s| && keep(s[k]) ensures k in idx {
      assert tail[k - 1] == s[k];
    }
  }

  /** Positions in `s[1..]` moved to positions in `s`. */
  lemma Shift<T>(tail: seq<T>, s: seq<T>, rest: seq<nat>) returns (shifted: seq<nat>)
    requires |s| > 0 && tail == s[1..]
    requires forall i :: 0 <= i < |rest| ==> rest[i] < |tail|
    requires forall i, j :: 0 <= i < j < |rest| ==> rest[i] < rest[j]
    ensures |shifted| == |rest|
    ensures forall i :: 0 <= i < |rest| ==> shifted[i] == rest[i] + 1 && 0 < shifted[i] < |s|
    ensures forall i :: 0 <= i < |rest| ==> s[shifted[i]] == tail[rest[i]]
    ensures forall i, j :: 0 <= i < j < |rest| ==> shifted[i] < shifted[j]
    ensures forall k :: 0 <= k < |tail| && k in rest ==> k + 1 in shifted
  {
    shifted := seq(|rest|, i requires 0 <= i < |rest| => rest[i] + 1);
    forall k | 0 <= k < |tail| && k in rest ensures k + 1 in shifted {
      var i :| 0 <= i < |rest| && rest[i] == k;
      assert shifted[i] == k + 1;
    }
  }

  /** The base names `glob` returns for one directory listing, in listing order. */
  function GlobSuffix(entries: seq<string>, name: string): (r: seq<string>)
    ensures forall e :: e in r <==> e in entries && GlobMatches(e, name)
  {
    Filter(entries, e => GlobMatches(e, name))
  }

  /** `glob` keeps the listing order, so the first name it returns is the
      first matching entry, the one the report shows as the device's
      path. */
  lemma GlobSuffixOrder(entries: seq<string>, name: string) returns (idx: seq<nat>)
    ensures |idx| == |GlobSuffix(entries, name)|
    ensures forall i :: 0 <= i < |idx| ==> idx[i] < |entries| && GlobSuffix(entries, name)[i] == entries[idx[i]]
    ensures forall i, j :: 0 <= i < j < |idx| ==> idx[i] < idx[j]
    ensures forall k :: 0 <= k < |entries| && GlobMatches(entries[k], name) ==> k in idx
    ensures |idx| > 0 ==> forall k :: 0 <= k < idx[0] ==> !GlobMatches(entries[k], name)
  {
    idx := FilterOrder(entries, e => GlobMatches(e, name));
    assert OrderedBy(entries, e => GlobMatches(e, name), GlobSuffix(entries, name), idx);
  }

  /** One line of `lsblk -P` output, with the persistent names looked up
      when `kname` is non-empty. */
  function ParseLine(line: string, byPath: seq<string>, byId: seq<string>): Device {
    var fields := LineFields(line);
    var kname := Lookup(fields, "kname");
    if kname != "" then Device(fields, Some(GlobSuffix(byPath, kname)), Some(GlobSuffix(byId, kname)))
    else Device(fields, None, None)
  }

  predicate HasName(d: Device) {
    "name" in d.fields
  }

  function NameOf(d: Device): string {
    Field(d, "name")
  }

  function MountOf(d: Device): string {
    Field(d, "mountpoint")
  }

  /** Index of the last record whose `name` is `n`. */
  function LastNamed(recs: seq<Device>, n: string): (r: Option<nat>)
    ensures r.Some? ==> r.value < |recs| && HasName(recs[r.value]) && NameOf(recs[r.value]) == n
    ensures r.Some? ==> forall j :: r.value < j < |recs| ==> !(HasName(recs[j]) && NameOf(recs[j]) == n)
    ensures r.None? ==> forall j :: 0 <= j < |recs| ==> !(HasName(recs[j]) && NameOf(recs[j]) == n)
  {
    if |recs| == 0 then None
    else if HasName(recs[|recs| - 1]) && NameOf(recs[|recs| - 1]) == n then Some(|recs| - 1)
    else LastNamed(recs[..|recs| - 1], n)
  }

  /** Index of the first record at or after `from` whose `name` is `n`. */
  function FirstNamedFrom(recs: seq<Device>, n: string, from: nat): (r: Option<nat>)
    requires from <= |recs|
    ensures r.Some? ==> from <= r.value < |recs| && HasName(recs[r.value]) && NameOf(recs[r.value]) == n
    ensures r.Some? ==> forall j :: from <= j < r.value ==> !(HasName(recs[j]) && NameOf(recs[j]) == n)
    ensures r.None? ==> forall j :: from <= j < |recs| ==> !(HasName(recs[j]) && NameOf(recs[j]) == n)
    decreases |recs| - from
  {
    if from == |recs| then None
    else if HasName(recs[from]) && NameOf(recs[from]) == n then Some(from)
    else FirstNamedFrom(recs, n, from + 1)
  }

  /** Index of the first record whose `name` is `n`. */
  function FirstNamed(recs: seq<Device>, n: string): Option<nat> {
    FirstNamedFrom(recs, n, 0)
  }

  /** Index of the last record whose non-empty `mountpoint` is `m`. */
  function LastMounted(recs: seq<Device>, m: string): (r: Option<nat>)
    ensures r.Some? ==> m != "" && r.value < |recs| && MountOf(recs[r.value]) == m
    ensures r.Some? ==> forall j :: r.value < j < |recs| ==> MountOf(recs[j]) != m
    ensures r.None? ==> m == "" || forall j :: 0 <= j < |recs| ==> MountOf(recs[j]) != m
  {
    if |recs| == 0 || m == "" then None
    else if MountOf(recs[|recs| - 1]) == m then Some(|recs| - 1)
    else LastMounted(recs[..|recs| - 1], m)
  }

  /** `devices` and `mount_map` before the HCTL pass, with the parsed
      records they refer to by line index. */
  datatype Index = Index(records: seq<Device>, devices: Dict<string, nat>, mounts: Dict<string, nat>)

  /** `KeyError: 'name'` on the line with that index. */
  datatype StorageError = MissingName(line: nat)

  /** The map refers to distinct records that exist. */
  predicate WellIndexed(recs: seq<Device>, devs: Dict<string, nat>) {
    && UniqueKeys(devs)
    && (forall p :: 0 <= p < |devs| ==> devs[p].1 < |recs|)
    && (forall p, q :: 0 <= p < q < |devs| ==> devs[p].1 != devs[q].1)
  }

  /** `devices` maps each name to the last record that carries it. */
  ghost predicate DevicesOf(recs: seq<Device>, devs: Dict<string, nat>) {
    && UniqueKeys(devs)
    && (forall p :: 0 <= p < |devs| ==> devs[p].1 < |recs| && NameOf(recs[devs[p].1]) == devs[p].0)
    && (forall n :: Get(devs, n) == LastNamed(recs, n))
  }

  /** Name `a` first appears on an earlier line than name `b`. */
  predicate FirstBefore(recs: seq<Device>, a: string, b: string) {
    FirstNamed(recs, a).Some? && FirstNamed(recs, b).Some? && FirstNamed(recs, a).value < FirstNamed(recs, b).value
  }

  /** The names sit in `devices` in the order of their first lines. */
  ghost predicate FirstOrder(recs: seq<Device>, devs: Dict<string, nat>) {
    && (forall p :: 0 <= p < |devs| ==> FirstNamed(recs, devs[p].0).Some?)
    && (forall p, q :: 0 <= p < q < |devs| ==> FirstBefore(recs, devs[p].0, devs[q].0))
  }

  /** `mount_map` maps each non-empty mount point to the last record that carries it. */
  ghost predicate MountsOf(recs: seq<Device>, mounts: Dict<string, nat>) {
    && UniqueKeys(mounts)
    && (forall p :: 0 <= p < |mounts| ==> mounts[p].1 < |recs| && MountOf(recs[mounts[p].1]) == mounts[p].0)
    && (forall m :: Get(mounts, m) == LastMounted(recs, m))
  }

  /** The records of the lines, in order. */
  function ParseLines(lines: seq<string>, byPath: seq<string>, byId: seq<string>): (recs: seq<Device>)
    ensures |recs| == |lines|
  {
    seq(|lines|, i requires 0 <= i < |lines| => ParseLine(lines[i], byPath, byId))
  }

  /** The parsing loop over the parsed records: `devices[d['name']] = d`
      raises on a record without a name; `mount_map[mp] = d` for a
      non-empty mount point. */
  function BuildIndex(recs: seq<Device>): Result<Index, StorageError> {
    if |recs| == 0 then Success(Index([], [], []))
    else
      match BuildIndex(recs[..|recs| - 1])
      case Failure(e) => Failure(e)
      case Success(ix) => AddRecord(ix, recs[|recs| - 1], |recs| - 1)
  }

  /** One iteration of the loop, for record `d` on line `i`. */
  function AddRecord(ix: Index, d: Device, i: nat): Result<Index, StorageError> {
    if "name" !in d.fields then Failure(MissingName(i))
    else
      var mp := MountOf(d);
      var devs := Put(ix.devices, d.fields["name"], i);
      var mounts := if mp != "" then Put(ix.mounts, mp, i) else ix.mounts;
      Success(Index(ix.records + [d], devs, mounts))
  }

  /** The loop fails exactly when some record has no name, at the first such
      record (the `N/A` that a failed command yields is one). */
  lemma {:induction false} BuildIndexFails(recs: seq<Device>)
    ensures var r := BuildIndex(recs);
      && (r.Failure? <==> exists i :: 0 <= i < |recs| && !HasName(recs[i]))
      && (r.Failure? ==> r.error.line < |recs| && !HasName(recs[r.error.line]))
      && (r.Failure? ==> forall j :: 0 <= j < r.error.line ==> HasName(recs[j]))
  {
    if |recs| > 0 {
      var i := |recs| - 1;
      var init := recs[..i];
      assert forall j :: 0 <= j < i ==> recs[j] == init[j];
      BuildIndexFails(init);
      if BuildIndex(init).Success? {
        AddRecordFails(BuildIndex(init).value, recs[i], i);
      }
    }
  }

  lemma AddRecordFails(ix: Index, d: Device, i: nat)
    ensures AddRecord(ix, d, i).Failure? <==> !HasName(d)
    ensures AddRecord(ix, d, i).Failure? ==> AddRecord(ix, d, i).error.line == i
  {
  }

  /** On success each name and each non-empty mount point maps to the last
      record carrying it; `BuildIndexOrder` gives the order of the names. */
  lemma {:induction false} BuildIndexSucceeds(recs: seq<Device>)
    ensures var r := BuildIndex(recs);
      r.Success? ==> r.value.records == recs && DevicesOf(recs, r.value.devices) && MountsOf(recs, r.value.mounts)
  {
    if |recs| > 0 {
      var init := recs[..|recs| - 1];
      BuildIndexSucceeds(init);
      if BuildIndex(init).Success? {
        RecordStep(recs, BuildIndex(init).value);
      }
    }
  }

  /** A dict keeps its keys in first-insertion order: on success the names
      of `devices` follow the lines on which each name first appears. */
  lemma {:induction false} BuildIndexOrder(recs: seq<Device>)
    ensures BuildIndex(recs).Success? ==> FirstOrder(recs, BuildIndex(recs).value.devices)
  {
    if |recs| > 0 {
      var init := recs[..|recs| - 1];
      BuildIndexOrder(init);
      if BuildIndex(init).Success? && HasName(recs[|recs| - 1]) {
        IndexOrderStep(recs, BuildIndex(init).value);
      }
    }
  }

  /** One iteration of the loop keeps the names in first-line order. */
  lemma IndexOrderStep(recs: seq<Device>, ix: Index)
    requires |recs| > 0 && HasName(recs[|recs| - 1])
    requires BuildIndex(recs[..|recs| - 1]) == Success(ix) && FirstOrder(recs[..|recs| - 1], ix.devices)
    ensures BuildIndex(recs).Success? && FirstOrder(recs, BuildIndex(recs).value.devices)
  {
    var init := recs[..|recs| - 1];
    var key := NameOf(recs[|recs| - 1]);
    BuildIndexSucceeds(init);
    assert Get(ix.devices, key) == LastNamed(init, key);
    OrderStepPut(recs, ix.devices);
  }

  /** `OrderStep` for the assignment the loop makes. */
  lemma OrderStepPut(recs: seq<Device>, devs: Dict<string, nat>)
    requires |recs| > 0 && HasName(recs[|recs| - 1])
    requires Get(devs, NameOf(recs[|recs| - 1])) == LastNamed(recs[..|recs| - 1], NameOf(recs[|recs| - 1]))
    requires FirstOrder(recs[..|recs| - 1], devs)
    ensures FirstOrder(recs, Put(devs, NameOf(recs[|recs| - 1]), |recs| - 1))
  {
    var key := NameOf(recs[|recs| - 1]);
    PutKeys(devs, key, |recs| - 1);
    OrderStep(recs, devs, Put(devs, key, |recs| - 1));
  }

  /** `devices[name] = d` keeps the first-line order: a name seen before
      keeps its place, a new name comes last and first appears last. */
  lemma OrderStep(recs: seq<Device>, devs: Dict<string, nat>, r: Dict<string, nat>)
    requires |recs| > 0 && HasName(recs[|recs| - 1])
    requires Get(devs, NameOf(recs[|recs| - 1])) == LastNamed(recs[..|recs| - 1], NameOf(recs[|recs| - 1]))
    requires FirstOrder(recs[..|recs| - 1], devs)
    requires NameOf(recs[|recs| - 1]) in Keys(devs) ==> Keys(r) == Keys(devs)
    requires NameOf(recs[|recs| - 1]) !in Keys(devs) ==> Keys(r) == Keys(devs) + [NameOf(recs[|recs| - 1])]
    ensures FirstOrder(recs, r)
  {
    var key := NameOf(recs[|recs| - 1]);
    FirstNamedPrefix(recs);
    if key in Keys(devs) {
      OrderStepOld(recs, devs, key, r);
    } else {
      AbsentGet(devs, key);
      FirstNamedLast(recs);
      OrderStepNew(recs, devs, key, r);
    }
  }

  /** A name that occurs before the last record first occurs where it did. */
  lemma FirstNamedPrefix(recs: seq<Device>)
    requires |recs| > 0
    ensures forall n :: FirstNamed(recs[..|recs| - 1], n).Some? ==>
      FirstNamed(recs, n) == FirstNamed(recs[..|recs| - 1], n)
  {
    var init := recs[..|recs| - 1];
    assert forall j :: 0 <= j < |init| ==> recs[j] == init[j];
    forall n | FirstNamed(init, n).Some? ensures FirstNamed(recs, n) == FirstNamed(init, n) {
      var f := FirstNamed(recs, n);
      assert f.Some? && f.value <= FirstNamed(init, n).value;
    }
  }

  /** A name no earlier record carries first occurs on the last record. */
  lemma FirstNamedLast(recs: seq<Device>)
    requires |recs| > 0 && HasName(recs[|recs| - 1])
    requires LastNamed(recs[..|recs| - 1], NameOf(recs[|recs| - 1])).None?
    ensures FirstNamed(recs, NameOf(recs[|recs| - 1])) == Some(|recs| - 1)
  {
    var i := |recs| - 1;
    assert forall j :: 0 <= j < i ==> recs[j] == recs[..i][j];
  }

  /** `OrderStep` for a name already present: the keys do not move. */
  lemma OrderStepOld(recs: seq<Device>, devs: Dict<string, nat>, key: string, r: Dict<string, nat>)
    requires |recs| > 0 && FirstOrder(recs[..|recs| - 1], devs)
    requires forall n :: FirstNamed(recs[..|recs| - 1], n).Some? ==>
      FirstNamed(recs, n) == FirstNamed(recs[..|recs| - 1], n)
    requires Keys(r) == Keys(devs)
    ensures FirstOrder(recs, r)
  {
    assert forall p :: 0 <= p < |r| ==> r[p].0 == Keys(r)[p] == Keys(devs)[p] == devs[p].0;
  }

  /** `OrderStep` for a new name: it is appended, and its first line is the
      last one. */
  lemma OrderStepNew(recs: seq<Device>, devs: Dict<string, nat>, key: string, r: Dict<string, nat>)
    requires |recs| > 0 && HasName(recs[|recs| - 1]) && key == NameOf(recs[|recs| - 1])
    requires FirstOrder(recs[..|recs| - 1], devs)
    requires forall n :: FirstNamed(recs[..|recs| - 1], n).Some? ==>
      FirstNamed(recs, n) == FirstNamed(recs[..|recs| - 1], n)
    requires FirstNamed(recs, key) == Some(|recs| - 1)
    requires Keys(r) == Keys(devs) + [key]
    ensures FirstOrder(recs, r)
  {
    assert forall p :: 0 <= p < |devs| ==> r[p].0 == Keys(r)[p] == devs[p].0;
    assert r[|devs|].0 == Keys(r)[|devs|] == key;
  }

  /** One iteration of the loop keeps both maps faithful. */
  lemma RecordStep(recs: seq<Device>, ix: Index)
    requires |recs| > 0 && ix.records == recs[..|recs| - 1]
    requires DevicesOf(recs[..|recs| - 1], ix.devices) && MountsOf(recs[..|recs| - 1], ix.mounts)
    ensures var r := AddRecord(ix, recs[|recs| - 1], |recs| - 1);
      r.Success? ==> r.value.records == recs && DevicesOf(recs, r.value.devices) && MountsOf(recs, r.value.mounts)
  {
    var i := |recs| - 1;
    if HasName(recs[i]) {
      assert recs[..i] + [recs[i]] == recs;
      DevicesStep(recs, ix.devices);
      if MountOf(recs[i]) != "" {
        MountsStepPut(recs, ix.mounts);
      } else {
        MountsStepSkip(recs, ix.mounts);
      }
    }
  }

  lemma DevicesStep(recs: seq<Device>, devs: Dict<string, nat>)
    requires |recs| > 0 && HasName(recs[|recs| - 1])
    requires DevicesOf(recs[..|recs| - 1], devs)
    ensures DevicesOf(recs, Put(devs, NameOf(recs[|recs| - 1]), |recs| - 1))
  {
    var i := |recs| - 1;
    var init := recs[..i];
    var name := NameOf(recs[i]);
    assert forall j :: 0 <= j < i ==> recs[j] == init[j];
    NamedStep(recs, devs, i);
    EntriesStep(devs, name, i);
  }

  lemma NamedStep(recs: seq<Device>, d: Dict<string, nat>, i: nat)
    requires |recs| > 0 && i == |recs| - 1 && HasName(recs[i])
    requires forall n :: Get(d, n) == LastNamed(recs[..i], n)
    ensures forall n :: Get(Put(d, NameOf(recs[i]), i), n) == LastNamed(recs, n)
  {
    var key := NameOf(recs[i]);
    PutGet(d, key, i);
    forall n ensures Get(Put(d, key, i), n) == LastNamed(recs, n) {
      if n != key {
        assert LastNamed(recs, n) == LastNamed(recs[..i], n);
      }
    }
  }

  lemma MountedStep(recs: seq<Device>, d: Dict<string, nat>, i: nat)
    requires |recs| > 0 && i == |recs| - 1 && MountOf(recs[i]) != ""
    requires forall m :: Get(d, m) == LastMounted(recs[..i], m)
    ensures forall m :: Get(Put(d, MountOf(recs[i]), i), m) == LastMounted(recs, m)
  {
    var key := MountOf(recs[i]);
    PutGet(d, key, i);
    forall m ensures Get(Put(d, key, i), m) == LastMounted(recs, m) {
      if m != key {
        assert LastMounted(recs, m) == LastMounted(recs[..i], m);
      }
    }
  }

  /** Every entry of `d[key] = i` other than `key`'s was already in `d`. */
  lemma EntriesStep(d: Dict<string, nat>, key: string, i: nat)
    requires UniqueKeys(d)
    ensures UniqueKeys(Put(d, key, i))
    ensures forall p :: 0 <= p < |Put(d, key, i)| ==>
      (Put(d, key, i)[p].0 == key && Put(d, key, i)[p].1 == i) || (p < |d| && Put(d, key, i)[p] == d[p])
  {
    PutShape(d, key, i);
    PutGet(d, key, i);
    var r := Put(d, key, i);
    forall p | 0 <= p < |r|
      ensures (r[p].0 == key && r[p].1 == i) || (p < |d| && r[p] == d[p])
    {
      if r[p].0 == key {
        PositionUnique(r, p);
      } else {
        assert Keys(r)[p] == r[p].0;
      }
    }
  }

  lemma MountsStepPut(recs: seq<Device>, mounts: Dict<string, nat>)
    requires |recs| > 0 && MountOf(recs[|recs| - 1]) != ""
    requires MountsOf(recs[..|recs| - 1], mounts)
    ensures MountsOf(recs, Put(mounts, MountOf(recs[|recs| - 1]), |recs| - 1))
  {
    var i := |recs| - 1;
    var init := recs[..i];
    var mp := MountOf(recs[i]);
    assert forall j :: 0 <= j < i ==> recs[j] == init[j];
    MountedStep(recs, mounts, i);
    EntriesStep(mounts, mp, i);
  }

  lemma MountsStepSkip(recs: seq<Device>, mounts: Dict<string, nat>)
    requires |recs| > 0 && MountOf(recs[|recs| - 1]) == ""
    requires MountsOf(recs[..|recs| - 1], mounts)
    ensures MountsOf(recs, mounts)
  {
    var i := |recs| - 1;
    var init := recs[..i];
    assert forall j :: 0 <= j < i ==> recs[j] == init[j];
    forall m ensures Get(mounts, m) == LastMounted(recs, m) {
      assert Get(mounts, m) == LastMounted(init, m);
    }
  }

  /* ---------------- the HCTL pass ---------------- */

  function Hctl(d: Device): string {
    Field(d, "hctl")
  }

  /** The two devices agree on everything except possibly `hctl`. */
  predicate SameButHctl(a: Device, b: Device) {
    a.fields - {"hctl"} == b.fields - {"hctl"} && a.paths == b.paths && a.ids == b.ids
  }

  /** The body of the pass for the device at position `k` of the map:
      `if not d.get('hctl') and d.get('pkname')`, look the parent up by
      name and copy its non-empty `hctl`. */
  function InheritStep(recs: seq<Device>, devs: Dict<string, nat>, k: nat): seq<Device>
    requires WellIndexed(recs, devs) && k < |devs|
  {
    var idx := devs[k].1;
    var d := recs[idx];
    if Hctl(d) == "" && Field(d, "pkname") != "" then
      (match Position(devs, Field(d, "pkname"))
       case Some(p) =>
         var parent := recs[devs[p].1];
         if Truthy(parent) && Hctl(parent) != "" then
           recs[idx := d.(fields := d.fields["hctl" := Hctl(parent)])]
         else recs
       case None => recs)
    else recs
  }

  /** The pass from position `k` on. */
  function InheritFrom(recs: seq<Device>, devs: Dict<string, nat>, k: nat): (r: seq<Device>)
    requires WellIndexed(recs, devs) && k <= |devs|
    ensures |r| == |recs|
    decreases |devs| - k
  {
    if k == |devs| then recs
    else InheritFrom(InheritStep(recs, devs, k), devs, k + 1)
  }

  /** Reference for the pass: the `hctl` the device at position `k` ends up
      with. Its own when set; otherwise its parent's as the pass finds it
      at that moment, which is the parent's final value when the parent
      comes earlier in the map and its original value when it comes later. */
  function ExpectedHctl(recs: seq<Device>, devs: Dict<string, nat>, k: nat): string
    requires WellIndexed(recs, devs) && k < |devs|
    decreases k
  {
    var d := recs[devs[k].1];
    if Hctl(d) != "" || Field(d, "pkname") == "" then Hctl(d)
    else
      match Position(devs, Field(d, "pkname"))
      case None => Hctl(d)
      case Some(p) =>
        var ph := if p < k then ExpectedHctl(recs, devs, p) else Hctl(recs[devs[p].1]);
        if ph != "" then ph else Hctl(d)
  }

  /** The state after the pass has handled positions before `k`. */
  ghost predicate PassedUpTo(recs: seq<Device>, devs: Dict<string, nat>, k: nat, cur: seq<Device>)
    requires WellIndexed(recs, devs) && k <= |devs|
  {
    && |cur| == |recs|
    && (forall i :: 0 <= i < |recs| ==> SameButHctl(cur[i], recs[i]))
    && (forall i :: 0 <= i < |recs| && Hctl(recs[i]) != "" ==> cur[i] == recs[i])
    && (forall i :: 0 <= i < |recs| && i !in Values(devs) ==> cur[i] == recs[i])
    && (forall j :: 0 <= j < k ==> Hctl(cur[devs[j].1]) == ExpectedHctl(recs, devs, j))
    && (forall j :: k <= j < |devs| ==> cur[devs[j].1] == recs[devs[j].1])
  }

  lemma PassStep(recs: seq<Device>, devs: Dict<string, nat>, k: nat, cur: seq<Device>)
    requires WellIndexed(recs, devs) && k < |devs|
    requires PassedUpTo(recs, devs, k, cur)
    ensures WellIndexed(cur, devs)
    ensures PassedUpTo(recs, devs, k + 1, InheritStep(cur, devs, k))
  {
    var idx := devs[k].1;
    var x := StepAt(recs, devs, k, cur);
    var next := InheritStep(cur, devs, k);
    assert next == cur[idx := x];
    assert idx in Values(devs);
    forall j | 0 <= j < |devs| && j != k ensures devs[j].1 != idx { }
  }

  /** What the body of the pass does to the device at position `k`: it
      replaces that one record by one that differs at most in `hctl`, gets
      the expected `hctl`, and leaves a record with an `hctl` alone. */
  lemma StepAt(recs: seq<Device>, devs: Dict<string, nat>, k: nat, cur: seq<Device>) returns (x: Device)
    requires WellIndexed(recs, devs) && k < |devs|
    requires PassedUpTo(recs, devs, k, cur)
    ensures InheritStep(cur, devs, k) == cur[devs[k].1 := x]
    ensures SameButHctl(x, recs[devs[k].1])
    ensures Hctl(recs[devs[k].1]) != "" ==> x == recs[devs[k].1]
    ensures Hctl(x) == ExpectedHctl(recs, devs, k)
  {
    var idx := devs[k].1;
    var d := cur[idx];
    assert d == recs[idx];
    x := d;
    assert Field(d, "pkname") == Field(recs[idx], "pkname");
    if Hctl(d) == "" && Field(d, "pkname") != "" {
      match Position(devs, Field(d, "pkname")) {
      case Some(p) =>
        var parent := cur[devs[p].1];
        var ph := if p < k then ExpectedHctl(recs, devs, p) else Hctl(recs[devs[p].1]);
        assert Hctl(parent) == ph;
        if Truthy(parent) && Hctl(parent) != "" {
          x := d.(fields := d.fields["hctl" := Hctl(parent)]);
          assert x.fields - {"hctl"} == d.fields - {"hctl"};
        } else {
          assert Hctl(parent) != "" ==> Truthy(parent);
        }
      case None =>
      }
    }
  }

  lemma {:induction false} PassRest(recs: seq<Device>, devs: Dict<string, nat>, k: nat, cur: seq<Device>)
    requires WellIndexed(recs, devs) && k <= |devs|
    requires PassedUpTo(recs, devs, k, cur)
    ensures WellIndexed(cur, devs)
    ensures PassedUpTo(recs, devs, |devs|, InheritFrom(cur, devs, k))
    decreases |devs| - k
  {
    if k < |devs| {
      PassStep(recs, devs, k, cur);
      var next := InheritStep(cur, devs, k);
      PassRest(recs, devs, k + 1, next);
      assert InheritFrom(cur, devs, k) == InheritFrom(next, devs, k + 1);
    }
  }

  /** The HCTL pass over the whole device map, in insertion order. Devices
      that already have an `hctl`, and records no longer in the device map,
      are untouched; other devices change at most in `hctl`, which becomes
      the value `ExpectedHctl` describes. */
  function InheritHctl(recs: seq<Device>, devs: Dict<string, nat>): (r: seq<Device>)
    requires WellIndexed(recs, devs)
    ensures |r| == |recs|
    ensures forall j :: 0 <= j < |devs| ==> Hctl(r[devs[j].1]) == ExpectedHctl(recs, devs, j)
    ensures forall i :: 0 <= i < |recs| ==> SameButHctl(r[i], recs[i])
    ensures forall i :: 0 <= i < |recs| && Hctl(recs[i]) != "" ==> r[i] == recs[i]
    ensures forall i :: 0 <= i < |recs| && i !in Values(devs) ==> r[i] == recs[i]
  {
    PassRest(recs, devs, 0, recs);
    InheritFrom(recs, devs, 0)
  }

  /* ---------------- get_storage_map ---------------- */

  /** What `get_storage_map` returns: the device values in map order and
      the mount map, whose values are the same records after the pass. */
  datatype StorageMap = StorageMap(devices: seq<Device>, mounts: Dict<string, Device>)

  /** A name-faithful device map refers to distinct records. */
  lemma DevicesWellIndexed(recs: seq<Device>, devs: Dict<string, nat>)
    requires DevicesOf(recs, devs)
    ensures WellIndexed(recs, devs)
  {
  }

  /** Parse every line, then build the maps from the records. */
  function GetStorageMap(lines: seq<string>, byPath: seq<string>, byId: seq<string>): (r: Result<StorageMap, StorageError>)
    ensures r.Failure? ==> r.error.line < |lines|
  {
    Assemble(ParseLines(lines, byPath, byId))
  }

  /** Build both maps, run the HCTL pass and read the records back through
      the maps. */
  function Assemble(recs: seq<Device>): (r: Result<StorageMap, StorageError>)
    ensures r.Failure? ==> r.error.line < |recs|
  {
    BuildIndexFails(recs);
    match BuildIndex(recs)
    case Failure(e) => Failure(e)
    case Success(ix) =>
      BuildIndexSucceeds(recs);
      DevicesWellIndexed(recs, ix.devices);
      var final := InheritHctl(recs, ix.devices);
      Success(StorageMap(
        seq(|ix.devices|, p requires 0 <= p < |ix.devices| => final[ix.devices[p].1]),
        seq(|ix.mounts|, q requires 0 <= q < |ix.mounts| => (ix.mounts[q].0, final[ix.mounts[q].1]))))
  }

  /** Agreement except on `hctl` keeps every other field. */
  lemma SameButHctlField(a: Device, b: Device, key: string)
    requires SameButHctl(a, b) && key != "hctl"
    ensures (key in a.fields <==> key in b.fields) && Field(a, key) == Field(b, key)
  {
    assert key in a.fields <==> key in a.fields - {"hctl"};
    assert key in b.fields <==> key in b.fields - {"hctl"};
    if key in a.fields {
      assert a.fields[key] == (a.fields - {"hctl"})[key];
      assert b.fields[key] == (b.fields - {"hctl"})[key];
    }
  }

  /** The device map's entry at position `p` is the last record carrying its name. */
  lemma EntryIsLast(recs: seq<Device>, devs: Dict<string, nat>, p: nat)
    requires DevicesOf(recs, devs) && p < |devs|
    ensures LastNamed(recs, devs[p].0) == Some(devs[p].1)
  {
    PositionUnique(devs, p);
    assert Get(devs, devs[p].0) == Some(devs[p].1);
  }

  /** The call fails exactly when some line has no `name` field, and it
      reports the first such line; output without key/value pairs, such as
      the `N/A` of a failed command, is one. */
  lemma StorageMapFails(recs: seq<Device>)
    ensures var r := Assemble(recs);
      && (r.Failure? <==> exists i :: 0 <= i < |recs| && !HasName(recs[i]))
      && (r.Failure? ==> !HasName(recs[r.error.line]))
      && (r.Failure? ==> forall j :: 0 <= j < r.error.line ==> HasName(recs[j]))
  {
    BuildIndexFails(recs);
  }

  /** The device list holds one entry per distinct name, in the order of
      the lines on which the names first appear; each entry is the last
      line carrying that name, changed at most in `hctl`. */
  lemma StorageMapDevices(recs: seq<Device>)
    requires Assemble(recs).Success?
    ensures var devices := Assemble(recs).value.devices;
      && (forall p, q :: 0 <= p < q < |devices| ==> NameOf(devices[p]) != NameOf(devices[q]))
      && (forall p :: 0 <= p < |devices| ==> HasName(devices[p]) && LastNamed(recs, NameOf(devices[p])).Some?)
      && (forall p :: 0 <= p < |devices| ==> SameButHctl(devices[p], recs[LastNamed(recs, NameOf(devices[p])).value]))
      && (forall p, q :: 0 <= p < q < |devices| ==> FirstBefore(recs, NameOf(devices[p]), NameOf(devices[q])))
  {
    BuildIndexSucceeds(recs);
    BuildIndexOrder(recs);
    var devs := BuildIndex(recs).value.devices;
    DevicesWellIndexed(recs, devs);
    var devices := Assemble(recs).value.devices;
    EntriesNamed(recs, devs, devices);
  }

  /** Every line's name has an entry in the device list. */
  lemma StorageMapCovers(recs: seq<Device>)
    requires Assemble(recs).Success?
    ensures var devices := Assemble(recs).value.devices;
      forall i :: 0 <= i < |recs| ==> exists p :: 0 <= p < |devices| && NameOf(devices[p]) == NameOf(recs[i])
  {
    BuildIndexFails(recs);
    BuildIndexSucceeds(recs);
    var devs := BuildIndex(recs).value.devices;
    DevicesWellIndexed(recs, devs);
    var devices := Assemble(recs).value.devices;
    EntriesNamed(recs, devs, devices);
    forall i | 0 <= i < |recs|
      ensures exists p :: 0 <= p < |devices| && NameOf(devices[p]) == NameOf(recs[i])
    {
      var n := NameOf(recs[i]);
      assert HasName(recs[i]);
      assert Get(devs, n) == LastNamed(recs, n);
      var p :| Position(devs, n) == Some(p);
      assert NameOf(devices[p]) == n;
    }
  }

  /** The entries read back through a faithful device map. */
  lemma EntriesNamed(recs: seq<Device>, devs: Dict<string, nat>, devices: seq<Device>)
    requires DevicesOf(recs, devs) && WellIndexed(recs, devs)
    requires devices == seq(|devs|, p requires 0 <= p < |devs| => InheritHctl(recs, devs)[devs[p].1])
    ensures forall p :: 0 <= p < |devices| ==> HasName(devices[p]) && NameOf(devices[p]) == devs[p].0
    ensures forall p :: 0 <= p < |devices| ==> LastNamed(recs, devs[p].0) == Some(devs[p].1)
    ensures forall p :: 0 <= p < |devices| ==> SameButHctl(devices[p], recs[devs[p].1])
  {
    var final := InheritHctl(recs, devs);
    forall p | 0 <= p < |devices|
      ensures HasName(devices[p]) && NameOf(devices[p]) == devs[p].0
      ensures LastNamed(recs, devs[p].0) == Some(devs[p].1)
      ensures SameButHctl(devices[p], recs[devs[p].1])
    {
      SameButHctlField(final[devs[p].1], recs[devs[p].1], "name");
      EntryIsLast(recs, devs, p);
    }
  }

  /** Each non-empty mount point maps to the last line mounted there,
      changed at most in `hctl`. */
  lemma StorageMapMounts(recs: seq<Device>)
    requires Assemble(recs).Success?
    ensures var sm := Assemble(recs).value;
      && (forall m :: Get(sm.mounts, m).Some? <==> LastMounted(recs, m).Some?)
      && (forall m :: Get(sm.mounts, m).Some? ==>
            SameButHctl(Get(sm.mounts, m).value, recs[LastMounted(recs, m).value]))
  {
    MountsReadBack(recs);
  }

  /** A mount entry is the same object as the device-list entry of its
      name, HCTL included, unless a later line with the same name replaced
      it in the device map; then the pass never reached it and it is the
      line as parsed. */
  lemma StorageMapAliasing(recs: seq<Device>)
    requires Assemble(recs).Success?
    ensures var sm := Assemble(recs).value;
      && (forall m, p ::
            (0 <= p < |sm.devices| && LastMounted(recs, m).Some? &&
             LastNamed(recs, NameOf(sm.devices[p])) == LastMounted(recs, m)) ==>
            Get(sm.mounts, m) == Some(sm.devices[p]))
      && (forall m ::
            (LastMounted(recs, m).Some? &&
             LastNamed(recs, NameOf(recs[LastMounted(recs, m).value])) != LastMounted(recs, m)) ==>
            Get(sm.mounts, m) == Some(recs[LastMounted(recs, m).value]))
  {
    BuildIndexSucceeds(recs);
    var devs := BuildIndex(recs).value.devices;
    DevicesWellIndexed(recs, devs);
    var final := InheritHctl(recs, devs);
    var sm := Assemble(recs).value;
    MountsReadBack(recs);
    EntriesNamed(recs, devs, sm.devices);
    forall m | LastMounted(recs, m).Some? &&
        LastNamed(recs, NameOf(recs[LastMounted(recs, m).value])) != LastMounted(recs, m)
      ensures Get(sm.mounts, m) == Some(recs[LastMounted(recs, m).value])
    {
      var i := LastMounted(recs, m).value;
      forall p | 0 <= p < |devs| ensures devs[p].1 != i {
        EntryIsLast(recs, devs, p);
      }
    }
  }

  /** Mount entries read back through the mount map. */
  lemma MountsReadBack(recs: seq<Device>)
    requires Assemble(recs).Success?
    ensures BuildIndex(recs).Success?
    ensures DevicesOf(recs, BuildIndex(recs).value.devices)
    ensures WellIndexed(recs, BuildIndex(recs).value.devices)
    ensures var sm := Assemble(recs).value;
      var final := InheritHctl(recs, BuildIndex(recs).value.devices);
      && (forall m :: Get(sm.mounts, m).Some? <==> LastMounted(recs, m).Some?)
      && (forall m :: Get(sm.mounts, m).Some? ==> Get(sm.mounts, m).value == final[LastMounted(recs, m).value])
  {
    BuildIndexSucceeds(recs);
    var ix := BuildIndex(recs).value;
    DevicesWellIndexed(recs, ix.devices);
    var final := InheritHctl(recs, ix.devices);
    var sm := Assemble(recs).value;
    assert |sm.mounts| == |ix.mounts|;
    forall m
      ensures Get(sm.mounts, m).Some? <==> LastMounted(recs, m).Some?
      ensures Get(sm.mounts, m).Some? ==> Get(sm.mounts, m).value == final[LastMounted(recs, m).value]
    {
      SameKeysPosition(ix.mounts, sm.mounts, m, 0);
      assert Get(ix.mounts, m) == LastMounted(recs, m);
    }
  }

  /** After the pass every device carries the HCTL that `ExpectedHctl`
      describes for its position in the device map. */
  lemma StorageMapHctl(recs: seq<Device>)
    requires Assemble(recs).Success?
    ensures var devs := BuildIndex(recs).value.devices;
      var devices := Assemble(recs).value.devices;
      && WellIndexed(recs, devs) && |devices| == |devs|
      && forall p :: 0 <= p < |devices| ==> Hctl(devices[p]) == ExpectedHctl(recs, devs, p)
  {
    BuildIndexSucceeds(recs);
    DevicesWellIndexed(recs, BuildIndex(recs).value.devices);
  }

  /** Output whose first line has no key/value pair, such as the `N/A` of
      a failed command, ends in `KeyError` on that line. */
  lemma FailedCommandFails(lines: seq<string>, byPath: seq<string>, byId: seq<string>)
    requires |lines| > 0 && '"' !in lines[0]
    ensures GetStorageMap(lines, byPath, byId) == Failure(MissingName(0))
  {
    var recs := ParseLines(lines, byPath, byId);
    NoQuoteNoPairs(lines[0]);
    assert !HasName(recs[0]);
    StorageMapFails(recs);
  }

  function Named(name: string, pkname: string, hctl: string): Device {
    Device(map["name" := name, "pkname" := pkname, "hctl" := hctl], None, None)
  }

  /** The pass is single and in map order: a device listed before its
      parent sees the parent's HCTL as it was parsed, so a device two
      levels below a disk, listed first, stays without HCTL while its
      parent inherits the disk's. `devs` is the device map `BuildIndex`
      makes of these lines, and `StorageMapHctl` says the device list
      carries exactly these HCTL values. */
  lemma SinglePassOrder()
    ensures var recs := [Named("dm-0", "sda1", ""), Named("sda1", "sda", ""), Named("sda", "", "0:0:0:0")];
      var devs: Dict<string, nat> := [("dm-0", 0), ("sda1", 1), ("sda", 2)];
      && WellIndexed(recs, devs)
      && Hctl(InheritHctl(recs, devs)[0]) == ""
      && Hctl(InheritHctl(recs, devs)[1]) == "0:0:0:0"
      && Hctl(InheritHctl(recs, devs)[2]) == "0:0:0:0"
  {
    var recs := [Named("dm-0", "sda1", ""), Named("sda1", "sda", ""), Named("sda", "", "0:0:0:0")];
    var devs: Dict<string, nat> := [("dm-0", 0), ("sda1", 1), ("sda", 2)];
    assert devs[0].0 != "sda1";
    assert Position(devs, "sda1") == Some(1);
    assert devs[0].0 != "sda" && devs[1].0 != "sda";
    assert Position(devs, "sda") == Some(2);
    assert ExpectedHctl(recs, devs, 1) == "0:0:0:0";
    assert ExpectedHctl(recs, devs, 0) == "";
  }
}
