/** The process tree of the report: which processes are roots, which are
    the children of a process, and the depth-first walk that lays the rows
    out, children in ascending pid order one level deeper than their
    parent.

    The tree is the dict from pid to process node, given as a map together
    with the dict's keys in iteration order. A node's pid is its key. */
module ProcessTree {
  import opened Sorting

  /** The fields of a process node that the report reads. */
  datatype ProcNode = ProcNode(
    ppid: int,
    uid: int,
    cmd: string,
    isNew: bool,
    context: string,
    anomalyScore: int,
    prio: int,
    cpuPct: real,
    readDelta: int,
    writeDelta: int,
    md5: string,
    secCtx: string,
    suspiciousEnv: seq<string>,
    libs: seq<string>,
    openFiles: seq<string>,
    connections: seq<string>)

  type Tree = map<int, ProcNode>

  /** `keys` lists every pid of the tree once. */
  predicate KeysOf(m: Tree, keys: seq<int>) {
    && Distinct(keys)
    && (forall k :: k in keys ==> k in m)
    && (forall k :: k in m ==> k in keys)
  }

  /** Whether some node names `p` as its parent. */
  predicate HasChild(m: Tree, p: int) {
    exists q :: q in m && m[q].ppid == p
  }

  /* ---------------- roots and children ---------------- */

  /** The pids in `keys` of the nodes whose parent is `p`, in order. */
  function KidsIn(m: Tree, keys: seq<int>, p: int): (r: seq<int>)
    ensures forall q {:trigger q in r} :: q in r <==> q in keys && q in m && m[q].ppid == p
    ensures Distinct(keys) ==> Distinct(r)
  {
    if |keys| == 0 then []
    else
      var rest := KidsIn(m, keys[1..], p);
      assert forall q :: q in keys[1..] ==> q in keys;
      if keys[0] in m && m[keys[0]].ppid == p then
        assert Distinct(keys) ==> keys[0] !in keys[1..] && keys[0] !in rest;
        [keys[0]] + rest
      else rest
  }

  /** The pids in `keys` of positive pid whose parent is not in the tree,
      in order. */
  function TopsIn(m: Tree, keys: seq<int>): (r: seq<int>)
    ensures forall q {:trigger q in r} :: q in r <==> q in keys && q in m && m[q].ppid !in m && q > 0
    ensures Distinct(keys) ==> Distinct(r)
  {
    if |keys| == 0 then []
    else
      var rest := TopsIn(m, keys[1..]);
      assert forall q :: q in keys[1..] ==> q in keys;
      if keys[0] in m && m[keys[0]].ppid !in m && keys[0] > 0 then
        assert Distinct(keys) ==> keys[0] !in keys[1..] && keys[0] !in rest;
        [keys[0]] + rest
      else rest
  }

  /** `sorted(p for p in tree.values() if p.ppid == pid)`, by pid. */
  function Children(m: Tree, keys: seq<int>, p: int): (r: seq<int>)
    requires Distinct(keys)
    ensures Ascending(r)
    ensures forall q {:trigger q in r} :: q in r <==> q in keys && q in m && m[q].ppid == p
  {
    IntLeTotal();
    var chosen := KidsIn(m, keys, p);
    SortKeeps(IntLe, chosen);
    SortedDistinctIncreasing(Sort(IntLe, chosen));
    Sort(IntLe, chosen)
  }

  /** `sorted(p.pid for p in tree.values() if p.ppid not in tree and p.pid > 0)`. */
  function Roots(m: Tree, keys: seq<int>): (r: seq<int>)
    requires Distinct(keys)
    ensures Ascending(r)
    ensures forall q {:trigger q in r} :: q in r <==> q in keys && q in m && m[q].ppid !in m && q > 0
  {
    IntLeTotal();
    var chosen := TopsIn(m, keys);
    SortKeeps(IntLe, chosen);
    SortedDistinctIncreasing(Sort(IntLe, chosen));
    Sort(IntLe, chosen)
  }

  /** Strictly ascending pids: `sorted` over pids without repeats. */
  predicate Ascending(s: seq<int>) {
    forall i, j :: 0 <= i < j < |s| ==> s[i] < s[j]
  }

  /* ---------------- ancestry ---------------- */

  /** Following parent links exactly `d` times from `p` stays inside the
      tree and ends at a root: a positive pid whose parent is not in the
      tree. This is the upward reading of "the walk reaches `p` at level
      `d`". */
  predicate Rooted(m: Tree, p: int, d: nat)
    decreases d
  {
    p in m &&
    if d == 0 then p > 0 && m[p].ppid !in m
    else m[p].ppid in m && Rooted(m, m[p].ppid, d - 1)
  }

  /** The `n`-th ancestor of `p`, stopping at a pid outside the tree. */
  function Up(m: Tree, p: int, n: nat): int
    decreases n
  {
    if n == 0 || p !in m then p else Up(m, m[p].ppid, n - 1)
  }

  /** A node has one depth: parent links are a function. */
  lemma {:induction false} DepthUnique(m: Tree, p: int, d1: nat, d2: nat)
    requires Rooted(m, p, d1) && Rooted(m, p, d2)
    ensures d1 == d2
    decreases d1
  {
    if d1 > 0 && d2 > 0 {
      DepthUnique(m, m[p].ppid, d1 - 1, d2 - 1);
    }
  }

  lemma {:induction false} RootedUp(m: Tree, p: int, d: nat, n: nat)
    requires Rooted(m, p, d) && n <= d
    ensures Rooted(m, Up(m, p, n), d - n)
    decreases n
  {
    if n > 0 {
      RootedUp(m, m[p].ppid, d - 1, n - 1);
    }
  }

  lemma {:induction false} UpAdd(m: Tree, p: int, a: nat, b: nat)
    ensures Up(m, p, a + b) == Up(m, Up(m, p, a), b)
    decreases a
  {
    if a > 0 && p in m {
      UpAdd(m, m[p].ppid, a - 1, b);
    }
  }

  /** A rooted node lies fewer levels down than there are nodes: its
      ancestors up to the root are distinct nodes of the tree. */
  lemma RootedBound(m: Tree, p: int, d: nat)
    requires Rooted(m, p, d)
    ensures d < |m|
  {
    var anc := seq(d + 1, n requires 0 <= n <= d => Up(m, p, n));
    forall n | 0 <= n <= d ensures anc[n] in m && Rooted(m, anc[n], d - n) {
      RootedUp(m, p, d, n);
    }
    forall i, j | 0 <= i < j < |anc| ensures anc[i] != anc[j] {
      if anc[i] == anc[j] {
        DepthUnique(m, anc[i], d - i, d - j);
      }
    }
    DistinctWithin(anc, m.Keys);
  }

  /** A sequence without repeats drawn from a set is no longer than it. */
  lemma {:induction false} DistinctWithin(s: seq<int>, keys: set<int>)
    requires Distinct(s)
    requires forall i :: 0 <= i < |s| ==> s[i] in keys
    ensures |s| <= |keys|
  {
    if |s| > 0 {
      forall i | 1 <= i < |s| ensures s[i] in keys - {s[0]} {
        assert s[i] == s[1..][i - 1];
      }
      DistinctWithin(s[1..], keys - {s[0]});
    }
  }


  /* ---------------- the walk ---------------- */

  /** Each node's children as the walk reads them: `kids` for a pid is a
      function of the tree alone, which the walk never changes, so it is
      computed once per pid here. */
  type Table = map<int, seq<int>>

  /** Every node has an entry listing, in ascending order, only nodes whose
      parent it is. */
  predicate KidsTable(m: Tree, t: Table) {
    forall q :: q in m ==> q in t && Ascending(t[q]) && forall k :: k in t[q] ==> k in m && m[k].ppid == q
  }

  /** ... and every such node. */
  predicate FullTable(m: Tree, t: Table) {
    && KidsTable(m, t)
    && forall q, k :: q in m && k in m && m[k].ppid == q ==> k in t[q]
  }

  /** The children of each pid of `ks`. */
  function TableOver(m: Tree, keys: seq<int>, ks: seq<int>): (t: Table)
    requires Distinct(keys)
    ensures forall q :: q in ks && q in m ==> q in t && Ascending(t[q])
    ensures forall q, k {:trigger k in t[q]} :: q in ks && q in m && q in t ==> (k in t[q] <==> k in keys && k in m && m[k].ppid == q)
    decreases |ks|
  {
    if |ks| == 0 then map[]
    else
      var rest := TableOver(m, keys, ks[1..]);
      assert forall q :: q in ks ==> q == ks[0] || q in ks[1..];
      rest[ks[0] := Children(m, keys, ks[0])]
  }

  /** The children of every node of the tree. */
  function ChildTable(m: Tree, keys: seq<int>): (t: Table)
    requires KeysOf(m, keys)
    ensures FullTable(m, t)
  {
    TableOver(m, keys, keys)
  }

  /** A node's list of children is non-empty exactly when some node names
      it as its parent. */
  predicate Expanders(m: Tree, t: Table) {
    forall q :: q in m && q in t ==> (|t[q]| > 0 <==> HasChild(m, q))
  }

  lemma FullExpanders(m: Tree, t: Table)
    requires FullTable(m, t)
    ensures Expanders(m, t)
  {
    forall q | q in m && q in t ensures |t[q]| > 0 <==> HasChild(m, q) {
      TableExpander(m, t, q);
    }
  }

  lemma TableExpander(m: Tree, t: Table, p: int)
    requires FullTable(m, t) && p in m
    ensures |t[p]| > 0 <==> HasChild(m, p)
  {
    if HasChild(m, p) {
      var k :| k in m && m[k].ppid == p;
      assert k in t[p];
    }
    if |t[p]| > 0 {
      assert t[p][0] in t[p];
    }
  }

  /** One rendered row: the pid, its indentation level and whether it
      shows an expander. */
  datatype Visit = Visit(pid: int, level: nat, hasKids: bool)

  /** The first child lies one level below its parent, within the tree;
      the later children are the same kind of list. */
  lemma FirstKid(m: Tree, kids: seq<int>, p: int, d: nat)
    requires Rooted(m, p, d) && |kids| > 0 && Ascending(kids)
    requires forall k :: k in kids ==> k in m && m[k].ppid == p
    ensures kids[0] in m && m[kids[0]].ppid == p
    ensures Rooted(m, kids[0], d + 1) && d + 1 < |m|
    ensures Ascending(kids[1..])
    ensures forall k :: k in kids[1..] ==> k in m && m[k].ppid == p
    ensures |kids| > 1 ==> kids[0] < kids[1]
  {
    assert kids[0] in kids;
    RootedBound(m, kids[0], d + 1);
    assert forall k :: k in kids[1..] ==> k in kids;
  }

  /** The first root is a root; the later roots are the same kind of list. */
  lemma FirstRoot(m: Tree, roots: seq<int>)
    requires |roots| > 0 && Ascending(roots)
    requires forall q :: q in roots ==> Rooted(m, q, 0)
    ensures Rooted(m, roots[0], 0)
    ensures Ascending(roots[1..])
    ensures forall q :: q in roots[1..] ==> Rooted(m, q, 0)
    ensures |roots| > 1 ==> roots[0] < roots[1]
  {
    assert roots[0] in roots;
    assert forall x :: x in roots[1..] ==> x in roots;
  }

  /** `walk(pid, lvl)`: the row of `p`, then the walks of its children in
      ascending pid at the next level. */
  function Walk(m: Tree, t: Table, p: int, d: nat): (r: seq<Visit>)
    requires KidsTable(m, t) && Rooted(m, p, d)
    ensures |r| > 0 && r[0] == Visit(p, d, |t[p]| > 0)
    decreases |m| - d, 1
  {
    [Visit(p, d, |t[p]| > 0)] + WalkKids(m, t, t[p], p, d)
  }

  /** `for k in kids: walk(k.pid, lvl + 1)`. */
  function WalkKids(m: Tree, t: Table, kids: seq<int>, p: int, d: nat): (r: seq<Visit>)
    requires KidsTable(m, t) && Rooted(m, p, d) && Ascending(kids)
    requires forall k :: k in kids ==> k in m && m[k].ppid == p
    decreases |m| - d, 0, |kids|
  {
    if |kids| == 0 then []
    else
      FirstKid(m, kids, p, d);
      Walk(m, t, kids[0], d + 1) + WalkKids(m, t, kids[1..], p, d)
  }

  /** `for r in sorted(roots): walk(r, 0)`. */
  function WalkRoots(m: Tree, t: Table, roots: seq<int>): (r: seq<Visit>)
    requires KidsTable(m, t) && Ascending(roots)
    requires forall q :: q in roots ==> Rooted(m, q, 0)
  {
    if |roots| == 0 then []
    else
      FirstRoot(m, roots);
      Walk(m, t, roots[0], 0) + WalkRoots(m, t, roots[1..])
  }

  /** The rows of the process tree, in the order the inner `walk` of
      `generate_html` emits them. */
  function Layout(m: Tree, keys: seq<int>): seq<Visit>
    requires KeysOf(m, keys)
  {
    WalkRoots(m, ChildTable(m, keys), Roots(m, keys))
  }

  /* ---------------- facts about rows ---------------- */

  /** Each row sits at its process's depth below a root. */
  predicate RowsRooted(m: Tree, r: seq<Visit>) {
    forall i :: 0 <= i < |r| ==> Rooted(m, r[i].pid, r[i].level)
  }

  /** Each row shows an expander exactly when its process has a child. */
  predicate KidsShown(m: Tree, r: seq<Visit>) {
    forall i :: 0 <= i < |r| ==> r[i].hasKids == HasChild(m, r[i].pid)
  }

  /** Every row lies at level `lift` or deeper and, going up from it as
      many levels as it lies below `lift`, reaches `top`. */
  predicate Under(m: Tree, r: seq<Visit>, top: int, lift: nat) {
    forall i :: 0 <= i < |r| ==> lift <= r[i].level && Up(m, r[i].pid, r[i].level - lift) == top
  }

  /** Like `Under`, but the ancestor at height `lift` is only known to be
      at least `lo`: the rows of the walks of ascending siblings from `lo`
      on. */
  predicate Beyond(m: Tree, r: seq<Visit>, lo: int, lift: nat) {
    forall i :: 0 <= i < |r| ==> lift <= r[i].level && Up(m, r[i].pid, r[i].level - lift) >= lo
  }

  /** No pid is laid out twice. */
  predicate PidsDistinct(r: seq<Visit>) {
    forall i, j :: 0 <= i < j < |r| ==> r[i].pid != r[j].pid
  }

  /** No pid of `a` is a pid of `b`. */
  predicate Apart(a: seq<Visit>, b: seq<Visit>) {
    forall i, j :: 0 <= i < |a| && 0 <= j < |b| ==> a[i].pid != b[j].pid
  }

  /** One step of the children's walk. */
  lemma WalkKidsCons(m: Tree, t: Table, kids: seq<int>, p: int, d: nat)
    requires KidsTable(m, t) && Rooted(m, p, d) && Ascending(kids) && |kids| > 0
    requires forall k :: k in kids ==> k in m && m[k].ppid == p
    ensures Rooted(m, kids[0], d + 1) && Ascending(kids[1..])
    ensures forall k :: k in kids[1..] ==> k in m && m[k].ppid == p
    ensures WalkKids(m, t, kids, p, d) == Walk(m, t, kids[0], d + 1) + WalkKids(m, t, kids[1..], p, d)
  {
    FirstKid(m, kids, p, d);
  }

  lemma RootedConcat(m: Tree, r: seq<Visit>, a: seq<Visit>, b: seq<Visit>)
    requires r == a + b && RowsRooted(m, a) && RowsRooted(m, b)
    ensures RowsRooted(m, r)
  {
    forall i | 0 <= i < |r| ensures Rooted(m, r[i].pid, r[i].level) {
      if i < |a| {
        assert r[i] == a[i];
      } else {
        assert r[i] == b[i - |a|];
      }
    }
  }

  lemma ShownConcat(m: Tree, r: seq<Visit>, a: seq<Visit>, b: seq<Visit>)
    requires r == a + b && KidsShown(m, a) && KidsShown(m, b)
    ensures KidsShown(m, r)
  {
    forall i | 0 <= i < |r| ensures r[i].hasKids == HasChild(m, r[i].pid) {
      if i < |a| {
        assert r[i] == a[i];
      } else {
        assert r[i] == b[i - |a|];
      }
    }
  }

  lemma UnderConcat(m: Tree, r: seq<Visit>, a: seq<Visit>, b: seq<Visit>, top: int, lift: nat)
    requires r == a + b && Under(m, a, top, lift) && Under(m, b, top, lift)
    ensures Under(m, r, top, lift)
  {
    forall i | 0 <= i < |r| ensures lift <= r[i].level && Up(m, r[i].pid, r[i].level - lift) == top {
      if i < |a| {
        assert r[i] == a[i];
      } else {
        assert r[i] == b[i - |a|];
      }
    }
  }

  /** Rows under a first sibling `lo`, followed by rows beyond a later
      sibling `lo'`, are all beyond `lo`. */
  lemma BeyondConcat(m: Tree, r: seq<Visit>, a: seq<Visit>, b: seq<Visit>, lo: int, lo': int, lift: nat)
    requires r == a + b && Under(m, a, lo, lift) && Beyond(m, b, lo', lift) && lo <= lo'
    ensures Beyond(m, r, lo, lift)
  {
    forall i | 0 <= i < |r| ensures lift <= r[i].level && Up(m, r[i].pid, r[i].level - lift) >= lo {
      if i < |a| {
        assert r[i] == a[i];
      } else {
        assert r[i] == b[i - |a|];
      }
    }
  }

  /** Rows under a child of `p` at the next level are under `p`. */
  lemma UnderParent(m: Tree, r: seq<Visit>, k: int, p: int, d: nat)
    requires Under(m, r, k, d + 1)
    requires k in m && m[k].ppid == p
    ensures Under(m, r, p, d)
  {
    forall i | 0 <= i < |r| ensures Up(m, r[i].pid, r[i].level - d) == p {
      UpAdd(m, r[i].pid, r[i].level - d - 1, 1);
    }
  }

  /** Rows under one sibling and rows beyond a later sibling share no
      pid: a pid has one level and one ancestor at each height. */
  lemma DisjointUnder(m: Tree, a: seq<Visit>, b: seq<Visit>, top: int, lo: int, lift: nat)
    requires RowsRooted(m, a) && RowsRooted(m, b)
    requires Under(m, a, top, lift) && Beyond(m, b, lo, lift) && top < lo
    ensures Apart(a, b)
  {
    forall i, j | 0 <= i < |a| && 0 <= j < |b| ensures a[i].pid != b[j].pid {
      if a[i].pid == b[j].pid {
        DepthUnique(m, a[i].pid, a[i].level, b[j].level);
      }
    }
  }

  lemma ConcatDistinct(a: seq<Visit>, b: seq<Visit>)
    requires PidsDistinct(a) && PidsDistinct(b) && Apart(a, b)
    ensures PidsDistinct(a + b)
  {
    var r := a + b;
    forall i, j | 0 <= i < j < |r| ensures r[i].pid != r[j].pid {
      if j < |a| {
        assert r[i] == a[i] && r[j] == a[j];
      } else if i >= |a| {
        assert r[i] == b[i - |a|] && r[j] == b[j - |a|];
      } else {
        assert r[i] == a[i] && r[j] == b[j - |a|];
      }
    }
  }

  /* ---------------- properties of the walk ---------------- */

  /** Every row of a walk sits at its process's depth below a root. */
  lemma {:induction false} WalkRooted(m: Tree, t: Table, p: int, d: nat)
    requires KidsTable(m, t) && Rooted(m, p, d)
    ensures RowsRooted(m, Walk(m, t, p, d))
    decreases |m| - d, 1
  {
    WalkKidsRooted(m, t, t[p], p, d);
    RootedConcat(m, Walk(m, t, p, d), [Visit(p, d, |t[p]| > 0)], WalkKids(m, t, t[p], p, d));
  }

  lemma {:induction false} WalkKidsRooted(m: Tree, t: Table, kids: seq<int>, p: int, d: nat)
    requires KidsTable(m, t) && Rooted(m, p, d) && Ascending(kids)
    requires forall k :: k in kids ==> k in m && m[k].ppid == p
    ensures RowsRooted(m, WalkKids(m, t, kids, p, d))
    decreases |m| - d, 0, |kids|
  {
    if |kids| > 0 {
      WalkKidsCons(m, t, kids, p, d);
      RootedBound(m, kids[0], d + 1);
      WalkRooted(m, t, kids[0], d + 1);
      WalkKidsRooted(m, t, kids[1..], p, d);
      RootedConcat(m, WalkKids(m, t, kids, p, d), Walk(m, t, kids[0], d + 1), WalkKids(m, t, kids[1..], p, d));
    }
  }

  lemma {:induction false} WalkRootsRooted(m: Tree, t: Table, roots: seq<int>)
    requires KidsTable(m, t) && Ascending(roots)
    requires forall q :: q in roots ==> Rooted(m, q, 0)
    ensures RowsRooted(m, WalkRoots(m, t, roots))
  {
    if |roots| > 0 {
      FirstRoot(m, roots);
      WalkRooted(m, t, roots[0], 0);
      WalkRootsRooted(m, t, roots[1..]);
      RootedConcat(m, WalkRoots(m, t, roots), Walk(m, t, roots[0], 0), WalkRoots(m, t, roots[1..]));
    }
  }

  /** Every row of a walk shows an expander exactly when its process has
      a child. */
  lemma {:induction false} WalkShown(m: Tree, t: Table, p: int, d: nat)
    requires KidsTable(m, t) && Expanders(m, t) && Rooted(m, p, d)
    ensures KidsShown(m, Walk(m, t, p, d))
    decreases |m| - d, 1
  {
    WalkKidsShown(m, t, t[p], p, d);
    ShownConcat(m, Walk(m, t, p, d), [Visit(p, d, |t[p]| > 0)], WalkKids(m, t, t[p], p, d));
  }

  lemma {:induction false} WalkKidsShown(m: Tree, t: Table, kids: seq<int>, p: int, d: nat)
    requires KidsTable(m, t) && Expanders(m, t) && Rooted(m, p, d) && Ascending(kids)
    requires forall k :: k in kids ==> k in m && m[k].ppid == p
    ensures KidsShown(m, WalkKids(m, t, kids, p, d))
    decreases |m| - d, 0, |kids|
  {
    if |kids| > 0 {
      WalkKidsCons(m, t, kids, p, d);
      RootedBound(m, kids[0], d + 1);
      WalkShown(m, t, kids[0], d + 1);
      WalkKidsShown(m, t, kids[1..], p, d);
      ShownConcat(m, WalkKids(m, t, kids, p, d), Walk(m, t, kids[0], d + 1), WalkKids(m, t, kids[1..], p, d));
    }
  }

  lemma {:induction false} WalkRootsShown(m: Tree, t: Table, roots: seq<int>)
    requires KidsTable(m, t) && Expanders(m, t) && Ascending(roots)
    requires forall q :: q in roots ==> Rooted(m, q, 0)
    ensures KidsShown(m, WalkRoots(m, t, roots))
  {
    if |roots| > 0 {
      FirstRoot(m, roots);
      WalkShown(m, t, roots[0], 0);
      WalkRootsShown(m, t, roots[1..]);
      ShownConcat(m, WalkRoots(m, t, roots), Walk(m, t, roots[0], 0), WalkRoots(m, t, roots[1..]));
    }
  }

  /** Every row of a walk from `p` at level `d` descends from `p`. */
  lemma {:induction false} WalkUnder(m: Tree, t: Table, p: int, d: nat)
    requires KidsTable(m, t) && Rooted(m, p, d)
    ensures Under(m, Walk(m, t, p, d), p, d)
    decreases |m| - d, 1
  {
    WalkKidsUnder(m, t, t[p], p, d);
    UnderConcat(m, Walk(m, t, p, d), [Visit(p, d, |t[p]| > 0)], WalkKids(m, t, t[p], p, d), p, d);
  }

  /** Every row of the children's walks descends from `p`. */
  lemma {:induction false} WalkKidsUnder(m: Tree, t: Table, kids: seq<int>, p: int, d: nat)
    requires KidsTable(m, t) && Rooted(m, p, d) && Ascending(kids)
    requires forall k :: k in kids ==> k in m && m[k].ppid == p
    ensures Under(m, WalkKids(m, t, kids, p, d), p, d)
    decreases |m| - d, 0, |kids|
  {
    if |kids| > 0 {
      WalkKidsCons(m, t, kids, p, d);
      RootedBound(m, kids[0], d + 1);
      var a := Walk(m, t, kids[0], d + 1);
      WalkUnder(m, t, kids[0], d + 1);
      UnderParent(m, a, kids[0], p, d);
      WalkKidsUnder(m, t, kids[1..], p, d);
      UnderConcat(m, WalkKids(m, t, kids, p, d), a, WalkKids(m, t, kids[1..], p, d), p, d);
    }
  }

  /** The children's walks lie one level down or more and descend from
      the first child or a later one. */
  lemma {:induction false} WalkKidsBeyond(m: Tree, t: Table, kids: seq<int>, p: int, d: nat)
    requires KidsTable(m, t) && Rooted(m, p, d) && Ascending(kids)
    requires forall k :: k in kids ==> k in m && m[k].ppid == p
    ensures |kids| > 0 ==> Beyond(m, WalkKids(m, t, kids, p, d), kids[0], d + 1)
    ensures |kids| == 0 ==> WalkKids(m, t, kids, p, d) == []
    decreases |kids|
  {
    if |kids| > 0 {
      WalkKidsCons(m, t, kids, p, d);
      WalkUnder(m, t, kids[0], d + 1);
      WalkKidsBeyond(m, t, kids[1..], p, d);
      var lo' := if |kids| > 1 then kids[1] else kids[0];
      BeyondConcat(m, WalkKids(m, t, kids, p, d), Walk(m, t, kids[0], d + 1), WalkKids(m, t, kids[1..], p, d), kids[0], lo', d + 1);
    }
  }

  /** The roots' walks descend from the first root or a later one. */
  lemma {:induction false} WalkRootsBeyond(m: Tree, t: Table, roots: seq<int>)
    requires KidsTable(m, t) && Ascending(roots)
    requires forall q :: q in roots ==> Rooted(m, q, 0)
    ensures |roots| > 0 ==> Beyond(m, WalkRoots(m, t, roots), roots[0], 0)
    ensures |roots| == 0 ==> WalkRoots(m, t, roots) == []
  {
    if |roots| > 0 {
      FirstRoot(m, roots);
      WalkUnder(m, t, roots[0], 0);
      WalkRootsBeyond(m, t, roots[1..]);
      var lo' := if |roots| > 1 then roots[1] else roots[0];
      BeyondConcat(m, WalkRoots(m, t, roots), Walk(m, t, roots[0], 0), WalkRoots(m, t, roots[1..]), roots[0], lo', 0);
    }
  }

  /** No pid appears twice in a walk. */
  lemma {:induction false} WalkDistinct(m: Tree, t: Table, p: int, d: nat)
    requires KidsTable(m, t) && Rooted(m, p, d)
    ensures PidsDistinct(Walk(m, t, p, d))
    decreases |m| - d, 1
  {
    var rest := WalkKids(m, t, t[p], p, d);
    WalkKidsDistinct(m, t, t[p], p, d);
    WalkKidsRooted(m, t, t[p], p, d);
    WalkKidsBeyond(m, t, t[p], p, d);
    forall j | 0 <= j < |rest| ensures rest[j].pid != p {
      if rest[j].pid == p {
        DepthUnique(m, p, d, rest[j].level);
      }
    }
    ConcatDistinct([Visit(p, d, |t[p]| > 0)], rest);
  }

  lemma {:induction false} WalkKidsDistinct(m: Tree, t: Table, kids: seq<int>, p: int, d: nat)
    requires KidsTable(m, t) && Rooted(m, p, d) && Ascending(kids)
    requires forall k :: k in kids ==> k in m && m[k].ppid == p
    ensures PidsDistinct(WalkKids(m, t, kids, p, d))
    decreases |m| - d, 0, |kids|
  {
    if |kids| > 0 {
      WalkKidsCons(m, t, kids, p, d);
      RootedBound(m, kids[0], d + 1);
      WalkDistinct(m, t, kids[0], d + 1);
      WalkKidsDistinct(m, t, kids[1..], p, d);
      SiblingsApart(m, t, kids, p, d);
      ConcatDistinct(Walk(m, t, kids[0], d + 1), WalkKids(m, t, kids[1..], p, d));
    }
  }

  /** The first child's walk shares no pid with its later siblings'
      walks. */
  lemma SiblingsApart(m: Tree, t: Table, kids: seq<int>, p: int, d: nat)
    requires KidsTable(m, t) && Rooted(m, p, d) && Ascending(kids) && |kids| > 0
    requires forall k :: k in kids ==> k in m && m[k].ppid == p
    requires Rooted(m, kids[0], d + 1) && Ascending(kids[1..])
    requires forall k :: k in kids[1..] ==> k in m && m[k].ppid == p
    ensures Apart(Walk(m, t, kids[0], d + 1), WalkKids(m, t, kids[1..], p, d))
  {
    var a := Walk(m, t, kids[0], d + 1);
    var b := WalkKids(m, t, kids[1..], p, d);
    FirstKid(m, kids, p, d);
    if |kids| > 1 {
      WalkRooted(m, t, kids[0], d + 1);
      WalkKidsRooted(m, t, kids[1..], p, d);
      WalkUnder(m, t, kids[0], d + 1);
      WalkKidsBeyond(m, t, kids[1..], p, d);
      DisjointUnder(m, a, b, kids[0], kids[1], d + 1);
    } else {
      WalkKidsBeyond(m, t, kids[1..], p, d);
    }
  }

  lemma {:induction false} WalkRootsDistinct(m: Tree, t: Table, roots: seq<int>)
    requires KidsTable(m, t) && Ascending(roots)
    requires forall q :: q in roots ==> Rooted(m, q, 0)
    ensures PidsDistinct(WalkRoots(m, t, roots))
  {
    if |roots| > 0 {
      FirstRoot(m, roots);
      var a := Walk(m, t, roots[0], 0);
      var b := WalkRoots(m, t, roots[1..]);
      WalkDistinct(m, t, roots[0], 0);
      WalkRootsDistinct(m, t, roots[1..]);
      if |roots| > 1 {
        WalkRooted(m, t, roots[0], 0);
        WalkRootsRooted(m, t, roots[1..]);
        WalkUnder(m, t, roots[0], 0);
        WalkRootsBeyond(m, t, roots[1..]);
        DisjointUnder(m, a, b, roots[0], roots[1], 0);
      } else {
        WalkRootsBeyond(m, t, roots[1..]);
      }
      ConcatDistinct(a, b);
    }
  }

  /* ---------------- the rows form a preorder ---------------- */

  /** Row `a` lies below row `b`: it is deeper, and `b`'s process is its
      ancestor at `b`'s level. */
  predicate Below(m: Tree, a: Visit, b: Visit) {
    a.level > b.level && Up(m, a.pid, a.level - b.level) == b.pid
  }

  /** Each row is at most one level deeper than the row before it, and a
      row one level deeper is a child of the row before it (`Up(m, q, 1)`
      is the parent of a node `q`). */
  predicate Stepwise(m: Tree, r: seq<Visit>) {
    forall i :: 0 < i < |r| ==>
      && r[i].level <= r[i - 1].level + 1
      && (r[i].level == r[i - 1].level + 1 ==> Up(m, r[i].pid, 1) == r[i - 1].pid)
  }

  /** A row's ancestors come before it. */
  predicate AncestorsFirst(m: Tree, r: seq<Visit>) {
    forall i, j :: 0 <= i < |r| && 0 <= j < |r| && Below(m, r[i], r[j]) ==> j < i
  }

  /** Between a row and any row below it lie only rows deeper than the
      first: each subtree is one block of rows. */
  predicate Blocks(m: Tree, r: seq<Visit>) {
    forall j, k, i :: 0 <= j < k < i < |r| && Below(m, r[i], r[j]) ==> r[k].level > r[j].level
  }

  /** Rows at one level with one parent, and rows at level 0, come in
      ascending pid. */
  predicate SiblingsAscend(m: Tree, r: seq<Visit>) {
    forall i, k ::
      (0 <= i < k < |r| && r[i].level == r[k].level &&
       (r[i].level == 0 || Up(m, r[i].pid, 1) == Up(m, r[k].pid, 1))) ==> r[i].pid < r[k].pid
  }

  predicate Preorder(m: Tree, r: seq<Visit>) {
    Stepwise(m, r) && AncestorsFirst(m, r) && Blocks(m, r) && SiblingsAscend(m, r)
  }

  /** Rows under one sibling and rows beyond a later sibling: neither lies
      below the other, and at a shared level with a shared parent the
      first comes first in pid order. */
  lemma CrossApart(m: Tree, a: seq<Visit>, b: seq<Visit>, top: int, lo: int, lift: nat)
    requires Under(m, a, top, lift) && Beyond(m, b, lo, lift) && top < lo
    ensures forall i, j :: 0 <= i < |a| && 0 <= j < |b| ==> !Below(m, a[i], b[j]) && !Below(m, b[j], a[i])
    ensures forall i, j ::
      (0 <= i < |a| && 0 <= j < |b| && a[i].level == b[j].level &&
       (a[i].level == 0 || Up(m, a[i].pid, 1) == Up(m, b[j].pid, 1))) ==> a[i].pid < b[j].pid
  {
    forall i, j | 0 <= i < |a| && 0 <= j < |b|
      ensures !Below(m, a[i], b[j]) && !Below(m, b[j], a[i])
    {
      var x, y := a[i], b[j];
      if Below(m, x, y) {
        UpAdd(m, x.pid, x.level - y.level, y.level - lift);
      }
      if Below(m, y, x) {
        UpAdd(m, y.pid, y.level - x.level, x.level - lift);
      }
    }
    forall i, j | 0 <= i < |a| && 0 <= j < |b| && a[i].level == b[j].level &&
        (a[i].level == 0 || Up(m, a[i].pid, 1) == Up(m, b[j].pid, 1))
      ensures a[i].pid < b[j].pid
    {
      var x, y := a[i], b[j];
      if x.level > lift {
        UpAdd(m, x.pid, 1, x.level - lift - 1);
        UpAdd(m, y.pid, 1, y.level - lift - 1);
      }
    }
  }

  lemma StepwiseConcat(m: Tree, a: seq<Visit>, b: seq<Visit>)
    requires Stepwise(m, a) && Stepwise(m, b)
    requires |a| > 0 && |b| > 0 ==>
      && b[0].level <= a[|a| - 1].level + 1
      && (b[0].level == a[|a| - 1].level + 1 ==> Up(m, b[0].pid, 1) == a[|a| - 1].pid)
    ensures Stepwise(m, a + b)
  {
    var r := a + b;
    forall i | 0 < i < |r|
      ensures r[i].level <= r[i - 1].level + 1
      ensures r[i].level == r[i - 1].level + 1 ==> Up(m, r[i].pid, 1) == r[i - 1].pid
    {
      if i < |a| {
        assert r[i] == a[i] && r[i - 1] == a[i - 1];
      } else if i == |a| {
        assert r[i] == b[0] && r[i - 1] == a[|a| - 1];
      } else {
        assert r[i] == b[i - |a|] && r[i - 1] == b[i - 1 - |a|];
      }
    }
  }

  lemma AncestorsConcat(m: Tree, a: seq<Visit>, b: seq<Visit>)
    requires AncestorsFirst(m, a) && AncestorsFirst(m, b)
    requires forall i, j :: 0 <= i < |a| && 0 <= j < |b| ==> !Below(m, a[i], b[j])
    ensures AncestorsFirst(m, a + b)
  {
    var r := a + b;
    forall i, j | 0 <= i < |r| && 0 <= j < |r| && Below(m, r[i], r[j]) ensures j < i {
      if i < |a| && j < |a| {
        assert r[i] == a[i] && r[j] == a[j];
      } else if i >= |a| && j >= |a| {
        assert r[i] == b[i - |a|] && r[j] == b[j - |a|];
      }
    }
  }

  /** Two blocks of rows neither of which lies below the other. */
  lemma BlocksApart(m: Tree, a: seq<Visit>, b: seq<Visit>)
    requires Blocks(m, a) && Blocks(m, b)
    requires forall i, j :: 0 <= i < |a| && 0 <= j < |b| ==> !Below(m, b[j], a[i])
    ensures Blocks(m, a + b)
  {
    var r := a + b;
    forall j, k, i | 0 <= j < k < i < |r| && Below(m, r[i], r[j]) ensures r[k].level > r[j].level {
      if i < |a| {
        assert r[i] == a[i] && r[j] == a[j] && r[k] == a[k];
      } else if j >= |a| {
        assert r[i] == b[i - |a|] && r[j] == b[j - |a|] && r[k] == b[k - |a|];
      }
    }
  }

  /** A row followed by rows all deeper than it. */
  lemma BlocksHead(m: Tree, v: Visit, b: seq<Visit>)
    requires Blocks(m, b)
    requires forall j :: 0 <= j < |b| ==> b[j].level > v.level
    ensures Blocks(m, [v] + b)
  {
    var r := [v] + b;
    forall j, k, i | 0 <= j < k < i < |r| && Below(m, r[i], r[j]) ensures r[k].level > r[j].level {
      assert r[i] == b[i - 1] && r[k] == b[k - 1];
      if j > 0 {
        assert r[j] == b[j - 1];
      }
    }
  }

  lemma SiblingsConcat(m: Tree, a: seq<Visit>, b: seq<Visit>)
    requires SiblingsAscend(m, a) && SiblingsAscend(m, b)
    requires forall i, j ::
      (0 <= i < |a| && 0 <= j < |b| && a[i].level == b[j].level &&
       (a[i].level == 0 || Up(m, a[i].pid, 1) == Up(m, b[j].pid, 1))) ==> a[i].pid < b[j].pid
    ensures SiblingsAscend(m, a + b)
  {
    var r := a + b;
    forall i, k | 0 <= i < k < |r| && r[i].level == r[k].level &&
        (r[i].level == 0 || Up(m, r[i].pid, 1) == Up(m, r[k].pid, 1))
      ensures r[i].pid < r[k].pid
    {
      if k < |a| {
        assert r[i] == a[i] && r[k] == a[k];
      } else if i >= |a| {
        assert r[i] == b[i - |a|] && r[k] == b[k - |a|];
      } else {
        assert r[i] == a[i] && r[k] == b[k - |a|];
      }
    }
  }

  /** The walk of a first sibling followed by the walks of later ones. */
  lemma PreorderJoin(m: Tree, a: seq<Visit>, b: seq<Visit>, top: int, lo: int, lift: nat)
    requires Preorder(m, a) && Preorder(m, b)
    requires Under(m, a, top, lift) && Beyond(m, b, lo, lift) && top < lo
    requires |b| > 0 ==> b[0].level == lift
    ensures Preorder(m, a + b)
  {
    CrossApart(m, a, b, top, lo, lift);
    if |a| > 0 && |b| > 0 {
      assert a[|a| - 1].level >= lift;
    }
    StepwiseConcat(m, a, b);
    AncestorsConcat(m, a, b);
    BlocksApart(m, a, b);
    SiblingsConcat(m, a, b);
  }

  /** A node's row followed by its children's walks. */
  lemma PreorderHead(m: Tree, v: Visit, b: seq<Visit>)
    requires Preorder(m, b)
    requires forall j :: 0 <= j < |b| ==> b[j].level > v.level
    requires |b| > 0 ==> b[0].level == v.level + 1 && Up(m, b[0].pid, 1) == v.pid
    ensures Preorder(m, [v] + b)
  {
    StepwiseConcat(m, [v], b);
    AncestorsConcat(m, [v], b);
    BlocksHead(m, v, b);
    SiblingsConcat(m, [v], b);
  }

  /** A walk lays its rows out in preorder. */
  lemma {:induction false} WalkPreorder(m: Tree, t: Table, p: int, d: nat)
    requires KidsTable(m, t) && Rooted(m, p, d)
    ensures Preorder(m, Walk(m, t, p, d))
    decreases |m| - d, 1
  {
    var kids := t[p];
    var b := WalkKids(m, t, kids, p, d);
    WalkKidsPreorder(m, t, kids, p, d);
    WalkKidsBeyond(m, t, kids, p, d);
    if |kids| > 0 {
      WalkKidsCons(m, t, kids, p, d);
      assert b[0] == Walk(m, t, kids[0], d + 1)[0];
      assert kids[0] in kids;
    }
    PreorderHead(m, Visit(p, d, |kids| > 0), b);
  }

  lemma {:induction false} WalkKidsPreorder(m: Tree, t: Table, kids: seq<int>, p: int, d: nat)
    requires KidsTable(m, t) && Rooted(m, p, d) && Ascending(kids)
    requires forall k :: k in kids ==> k in m && m[k].ppid == p
    ensures Preorder(m, WalkKids(m, t, kids, p, d))
    decreases |m| - d, 0, |kids|
  {
    if |kids| > 0 {
      WalkKidsCons(m, t, kids, p, d);
      RootedBound(m, kids[0], d + 1);
      WalkPreorder(m, t, kids[0], d + 1);
      WalkKidsPreorder(m, t, kids[1..], p, d);
      KidsJoin(m, t, kids, p, d);
    }
  }

  /** The first child's walk joined to the later children's walks. */
  lemma KidsJoin(m: Tree, t: Table, kids: seq<int>, p: int, d: nat)
    requires KidsTable(m, t) && Rooted(m, p, d) && Ascending(kids) && |kids| > 0
    requires forall k :: k in kids ==> k in m && m[k].ppid == p
    requires Rooted(m, kids[0], d + 1) && Ascending(kids[1..])
    requires forall k :: k in kids[1..] ==> k in m && m[k].ppid == p
    requires Preorder(m, Walk(m, t, kids[0], d + 1)) && Preorder(m, WalkKids(m, t, kids[1..], p, d))
    ensures Preorder(m, Walk(m, t, kids[0], d + 1) + WalkKids(m, t, kids[1..], p, d))
  {
    var lo := KidsSplit(m, t, kids, p, d);
    PreorderJoin(m, Walk(m, t, kids[0], d + 1), WalkKids(m, t, kids[1..], p, d), kids[0], lo, d + 1);
  }

  /** The first child's walk lies under it; the later children's walks
      lie beyond a larger pid and start one level below `p`. */
  lemma KidsSplit(m: Tree, t: Table, kids: seq<int>, p: int, d: nat) returns (lo: int)
    requires KidsTable(m, t) && Rooted(m, p, d) && Ascending(kids) && |kids| > 0
    requires forall k :: k in kids ==> k in m && m[k].ppid == p
    requires Rooted(m, kids[0], d + 1) && Ascending(kids[1..])
    requires forall k :: k in kids[1..] ==> k in m && m[k].ppid == p
    ensures kids[0] < lo
    ensures Under(m, Walk(m, t, kids[0], d + 1), kids[0], d + 1)
    ensures Beyond(m, WalkKids(m, t, kids[1..], p, d), lo, d + 1)
    ensures |WalkKids(m, t, kids[1..], p, d)| > 0 ==> WalkKids(m, t, kids[1..], p, d)[0].level == d + 1
  {
    WalkUnder(m, t, kids[0], d + 1);
    WalkKidsBeyond(m, t, kids[1..], p, d);
    if |kids| > 1 {
      FirstKid(m, kids, p, d);
      WalkKidsCons(m, t, kids[1..], p, d);
      lo := kids[1];
    } else {
      lo := kids[0] + 1;
    }
  }

  lemma {:induction false} WalkRootsPreorder(m: Tree, t: Table, roots: seq<int>)
    requires KidsTable(m, t) && Ascending(roots)
    requires forall q :: q in roots ==> Rooted(m, q, 0)
    ensures Preorder(m, WalkRoots(m, t, roots))
    ensures |roots| > 0 ==> WalkRoots(m, t, roots)[0].level == 0
  {
    if |roots| > 0 {
      FirstRoot(m, roots);
      var a := Walk(m, t, roots[0], 0);
      var b := WalkRoots(m, t, roots[1..]);
      WalkPreorder(m, t, roots[0], 0);
      WalkRootsPreorder(m, t, roots[1..]);
      WalkUnder(m, t, roots[0], 0);
      WalkRootsBeyond(m, t, roots[1..]);
      if |roots| > 1 {
        PreorderJoin(m, a, b, roots[0], roots[1], 0);
      } else {
        PreorderJoin(m, a, b, roots[0], roots[0] + 1, 0);
      }
    }
  }

  /* ---------------- every rooted node is laid out ---------------- */

  /** A row of one child's walk is a row of the children's walks. */
  lemma {:induction false} KidsReach(m: Tree, t: Table, kids: seq<int>, p: int, d: nat, c: int, v: Visit)
    requires KidsTable(m, t) && Rooted(m, p, d) && Ascending(kids)
    requires forall k :: k in kids ==> k in m && m[k].ppid == p
    requires c in kids && Rooted(m, c, d + 1)
    requires v in Walk(m, t, c, d + 1)
    ensures v in WalkKids(m, t, kids, p, d)
    decreases |kids|
  {
    WalkKidsCons(m, t, kids, p, d);
    if kids[0] != c {
      assert c in kids[1..];
      KidsReach(m, t, kids[1..], p, d, c, v);
    }
  }

  /** A row of one root's walk is a row of the roots' walks. */
  lemma {:induction false} RootsReach(m: Tree, t: Table, roots: seq<int>, top: int, v: Visit)
    requires KidsTable(m, t) && Ascending(roots)
    requires forall q :: q in roots ==> Rooted(m, q, 0)
    requires top in roots && Rooted(m, top, 0)
    requires v in Walk(m, t, top, 0)
    ensures v in WalkRoots(m, t, roots)
  {
    FirstRoot(m, roots);
    if roots[0] != top {
      assert top in roots[1..];
      RootsReach(m, t, roots[1..], top, v);
    }
  }

  /** The ancestor of `q` one level below `p` is a child of `p`. */
  lemma StepDown(m: Tree, p: int, d: nat, q: int, e: nat) returns (c: int)
    requires Rooted(m, q, e) && d < e && Up(m, q, e - d) == p
    ensures c in m && m[c].ppid == p && Rooted(m, c, d + 1)
    ensures Up(m, q, e - (d + 1)) == c
  {
    c := Up(m, q, e - d - 1);
    RootedUp(m, q, e, e - d - 1);
    UpAdd(m, q, e - d - 1, 1);
    assert Up(m, c, 1) == m[c].ppid;
  }

  /** The walk from `p` at level `d` lays out every node that lies below
      `p` at its own depth. */
  lemma {:induction false} WalkReaches(m: Tree, t: Table, p: int, d: nat, q: int, e: nat)
    requires FullTable(m, t) && Rooted(m, p, d) && Rooted(m, q, e)
    requires d <= e && Up(m, q, e - d) == p
    ensures Visit(q, e, |t[q]| > 0) in Walk(m, t, p, d)
    decreases e - d
  {
    if e > d {
      var c := StepDown(m, p, d, q, e);
      assert c in t[p];
      WalkReaches(m, t, c, d + 1, q, e);
      KidsReach(m, t, t[p], p, d, c, Visit(q, e, |t[q]| > 0));
    }
  }

  /* ---------------- the layout ---------------- */

  /** The inputs of the walk that `Layout` builds satisfy its
      preconditions. */
  lemma LayoutParts(m: Tree, keys: seq<int>)
    requires KeysOf(m, keys)
    ensures FullTable(m, ChildTable(m, keys))
    ensures forall q :: q in Roots(m, keys) ==> Rooted(m, q, 0)
    ensures forall q :: Rooted(m, q, 0) ==> q in Roots(m, keys)
  {
  }

  /** Every row is a node of the tree at its depth below a root, shows an
      expander exactly when the node has a child, and no pid is laid out
      twice. */
  lemma LayoutSound(m: Tree, keys: seq<int>)
    requires KeysOf(m, keys)
    ensures var r := Layout(m, keys);
      && (forall i :: 0 <= i < |r| ==> r[i].pid in m && Rooted(m, r[i].pid, r[i].level))
      && (forall i :: 0 <= i < |r| ==> r[i].hasKids == HasChild(m, r[i].pid))
      && (forall i, j :: 0 <= i < j < |r| ==> r[i].pid != r[j].pid)
  {
    var t := ChildTable(m, keys);
    var roots := Roots(m, keys);
    LayoutParts(m, keys);
    FullExpanders(m, t);
    WalkRootsRooted(m, t, roots);
    WalkRootsShown(m, t, roots);
    WalkRootsDistinct(m, t, roots);
  }

  /** Every node whose parent links lead, `e` steps up, to a root is laid
      out at level `e`, with its expander. */
  lemma LayoutComplete(m: Tree, keys: seq<int>, q: int, e: nat)
    requires KeysOf(m, keys) && Rooted(m, q, e)
    ensures Visit(q, e, HasChild(m, q)) in Layout(m, keys)
  {
    var t := ChildTable(m, keys);
    var roots := Roots(m, keys);
    LayoutParts(m, keys);
    var top := Up(m, q, e);
    RootedUp(m, q, e, e);
    WalkReaches(m, t, top, 0, q, e);
    TableExpander(m, t, q);
    RootsReach(m, t, roots, top, Visit(q, e, HasChild(m, q)));
  }

  /** A node on a cycle of parent links is never laid out. */
  lemma CycleHidden(m: Tree, q: int, n: nat, e: nat)
    requires q in m && n > 0 && Up(m, q, n) == q
    ensures !Rooted(m, q, e)
  {
    if Rooted(m, q, e) {
      if n <= e {
        RootedUp(m, q, e, n);
      } else {
        RootedUp(m, q, e, e);
        var top := Up(m, q, e);
        UpAdd(m, q, e, n - e);
      }
    }
  }

  /** A pid-0 node that is its own parent or whose parent is absent is not
      a root (roots have positive pids), so neither it nor anything below
      it is laid out. */
  lemma ZeroHidden(m: Tree, q: int, e: nat, n: nat)
    requires 0 in m && (m[0].ppid !in m || m[0].ppid == 0)
    requires Rooted(m, q, e) && n <= e
    ensures Up(m, q, n) != 0
  {
    RootedUp(m, q, e, n);
    if Up(m, q, n) == 0 && m[0].ppid == 0 {
      CycleHidden(m, 0, 1, e - n);
    }
  }

  /** The rows form a preorder of the tree: the first row is a root; each
      row is at most one level deeper than the one before it, and when it
      is one level deeper it is that row's child; a row's ancestors come
      before it and everything between lies deeper than the ancestor, so
      each subtree is one block of rows directly after its node; children
      of one parent, and the roots, come in ascending pid. */
  lemma LayoutPreorder(m: Tree, keys: seq<int>)
    requires KeysOf(m, keys)
    ensures var r := Layout(m, keys);
      && (|r| > 0 ==> r[0].level == 0)
      && Stepwise(m, r)
      && AncestorsFirst(m, r)
      && Blocks(m, r)
      && SiblingsAscend(m, r)
  {
    LayoutParts(m, keys);
    WalkRootsPreorder(m, ChildTable(m, keys), Roots(m, keys));
  }

  /** Every row below level 0 has its parent's row before it, with only
      rows at its own level or deeper in between. */
  lemma LayoutParentRow(m: Tree, keys: seq<int>, i: nat) returns (j: nat)
    requires KeysOf(m, keys)
    requires i < |Layout(m, keys)| && Layout(m, keys)[i].level > 0
    ensures var r := Layout(m, keys);
      && r[i].pid in m && j < i && r[j].pid == m[r[i].pid].ppid && r[j].level == r[i].level - 1
      && forall k :: j < k < i ==> r[k].level >= r[i].level
  {
    var r := Layout(m, keys);
    LayoutSound(m, keys);
    LayoutParts(m, keys);
    WalkRootsPreorder(m, ChildTable(m, keys), Roots(m, keys));
    var q := r[i].pid;
    var e := r[i].level;
    assert Rooted(m, m[q].ppid, e - 1);
    LayoutComplete(m, keys, m[q].ppid, e - 1);
    var jj :| 0 <= jj < |r| && r[jj] == Visit(m[q].ppid, e - 1, HasChild(m, m[q].ppid));
    assert Below(m, r[i], r[jj]);
    ParentRowBlock(m, r, i, jj);
    j := jj;
  }

  /** In a preorder, the row a row lies directly below comes first, and
      the rows between lie at least as deep as the lower row. */
  lemma ParentRowBlock(m: Tree, r: seq<Visit>, i: nat, j: nat)
    requires Preorder(m, r) && i < |r| && j < |r| && Below(m, r[i], r[j]) && r[j].level == r[i].level - 1
    ensures j < i && forall k :: j < k < i ==> r[k].level >= r[i].level
  {
  }
}
