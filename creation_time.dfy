/** The creation-time strategy of src/git/branch.rs
    (`get_branch_tree_by_creation_time`). Each branch is dated by the commit
    time of its tip, the branches are sorted oldest first, and every branch
    but the oldest is hung under the nearest older branch that is at most 30
    days older and related to it by history. */
module CreationTime {
  import opened Errors
  import opened BranchTree
  import opened Commits
  import opened Repo
  import opened TimeSort

  /** 30 days, in seconds; a parent must be strictly less than this older. */
  const CreationWindow: int := 60 * 60 * 24 * 30

  /** The dated entry of one listed branch: a name that is not valid UTF-8
      reads as "", and a name that does not resolve to a commit is skipped. */
  function Entry(v: Snapshot, b: Option<string>): seq<Timed>
    requires Walkable(v)
  {
    var n := NameOrEmpty(b);
    if n in v.tips then [(n, v.graph.time[v.tips[n]])] else []
  }

  /** The dated branches of `bs`, in listing order. */
  function TimesOf(v: Snapshot, bs: seq<Option<string>>): seq<Timed>
    requires Walkable(v)
  {
    if bs == [] then [] else TimesOf(v, bs[..|bs| - 1]) + Entry(v, bs[|bs| - 1])
  }

  /** Each dated entry carries the time of its branch's tip, and the dated
      branches are exactly the listed ones that resolve to a commit. */
  lemma {:induction false} TimesOfEntries(v: Snapshot, bs: seq<Option<string>>)
    requires Walkable(v)
    ensures forall e :: e in TimesOf(v, bs) ==> e.0 in v.tips && e.1 == v.graph.time[v.tips[e.0]]
    ensures forall e :: e in TimesOf(v, bs) ==> exists b :: b in bs && NameOrEmpty(b) == e.0
    ensures forall n :: n in v.tips && (exists b :: b in bs && NameOrEmpty(b) == n) ==>
      (n, v.graph.time[v.tips[n]]) in TimesOf(v, bs)
  {
    if bs != [] {
      var init := bs[..|bs| - 1];
      TimesOfEntries(v, init);
      assert forall b :: b in bs <==> b in init || b == bs[|bs| - 1];
    }
  }

  /** The dated branches sorted oldest first. */
  function BranchTimes(v: Snapshot): seq<Timed>
    requires Walkable(v)
  {
    SortByTime(TimesOf(v, v.branches))
  }

  /** Every name of `bt` is a branch. */
  predicate NamesKnown(v: Snapshot, bt: seq<Timed>) {
    forall k :: 0 <= k < |bt| ==> bt[k].0 in v.tips
  }

  /** `bt[j]` qualifies as the parent of `bt[c]`: less than 30 days older
      and related by history. */
  ghost predicate Near(v: Snapshot, bt: seq<Timed>, j: nat, c: nat)
    requires NamesKnown(v, bt) && j < |bt| && c < |bt|
  {
    bt[c].1 - bt[j].1 < CreationWindow && Related(v, bt[j].0, bt[c].0)
  }

  /** The index of the parent of `bt[c]` among `bt[..j]`: the nearest
      qualifying entry, scanning from `j - 1` down to 0. */
  ghost function ParentIndex(v: Snapshot, bt: seq<Timed>, c: nat, j: nat): (r: Option<nat>)
    requires NamesKnown(v, bt) && j <= c < |bt|
    ensures r.Some? ==> r.value < j
  {
    if j == 0 then None
    else if Near(v, bt, j - 1, c) then Some(j - 1)
    else ParentIndex(v, bt, c, j - 1)
  }

  /** The scan finds the nearest qualifying entry below `j`, and finds
      nothing only when no entry below `j` qualifies. */
  lemma {:induction false} ParentIndexNearest(v: Snapshot, bt: seq<Timed>, c: nat, j: nat)
    requires NamesKnown(v, bt) && j <= c < |bt|
    ensures ParentIndex(v, bt, c, j).Some? ==>
      var k := ParentIndex(v, bt, c, j).value;
      Near(v, bt, k, c) && forall m :: k < m < j ==> !Near(v, bt, m, c)
    ensures ParentIndex(v, bt, c, j).None? ==> forall m :: 0 <= m < j ==> !Near(v, bt, m, c)
  {
    if j > 0 && !Near(v, bt, j - 1, c) {
      ParentIndexNearest(v, bt, c, j - 1);
    }
  }

  /** The scan for `bt[k]` stops at an entry named `p`, and `bt[k]` is
      named `c`. */
  ghost predicate ScanFinds(v: Snapshot, bt: seq<Timed>, k: nat, p: string, c: string)
    requires NamesKnown(v, bt) && k < |bt|
  {
    bt[k].0 == c && ParentIndex(v, bt, k, k).Some? && bt[ParentIndex(v, bt, k, k).value].0 == p
  }

  /** The edge the scan for `bt[k]` records, if it finds a parent. */
  ghost function EdgeOf(v: Snapshot, bt: seq<Timed>, k: nat): seq<Edge>
    requires NamesKnown(v, bt) && k < |bt|
  {
    match ParentIndex(v, bt, k, k)
    case Some(j) => [(bt[j].0, bt[k].0)]
    case None => []
  }

  /** The edges recorded for the children `bt[0..i]`, in order. */
  ghost function TimeEdges(v: Snapshot, bt: seq<Timed>, i: nat): seq<Edge>
    requires NamesKnown(v, bt) && i <= |bt|
  {
    if i == 0 then [] else TimeEdges(v, bt, i - 1) + EdgeOf(v, bt, i - 1)
  }

  lemma SortedNamesKnown(v: Snapshot)
    requires Walkable(v)
    ensures NamesKnown(v, BranchTimes(v))
    ensures forall k :: 0 <= k < |BranchTimes(v)| ==>
      BranchTimes(v)[k].1 == v.graph.time[v.tips[BranchTimes(v)[k].0]]
  {
    var times := TimesOf(v, v.branches);
    var bt := BranchTimes(v);
    TimesOfEntries(v, v.branches);
    forall k | 0 <= k < |bt|
      ensures bt[k].0 in v.tips && bt[k].1 == v.graph.time[v.tips[bt[k].0]]
    {
      assert bt[k] in multiset(bt);
      assert bt[k] in times;
    }
  }

  /** The tree the strategy builds. */
  ghost function CreationTimeTree(v: Snapshot): Tree
    requires Walkable(v)
  {
    SortedNamesKnown(v);
    var bt := BranchTimes(v);
    EdgesToTree(TimeEdges(v, bt, |bt|))
  }

  /** First pass: date every branch that resolves to a commit. */
  method CollectTimes(repo: Repository) returns (times: seq<Timed>)
    requires Walkable(repo.View())
    ensures times == TimesOf(repo.View(), repo.branches)
  {
    ghost var v := repo.View();
    times := [];
    for k := 0 to |repo.branches|
      invariant times == TimesOf(v, repo.branches[..k])
    {
      assert repo.branches[..k + 1][..k] == repo.branches[..k];
      var name := NameOrEmpty(repo.branches[k]);
      if name in repo.tips {
        times := times + [(name, repo.graph.time[repo.tips[name]])];
      }
    }
    assert repo.branches[..|repo.branches|] == repo.branches;
  }

  /** One more child: its edge, if the scan finds a parent, goes last. */
  lemma AttachStep(v: Snapshot, bt: seq<Timed>, i: nat)
    requires NamesKnown(v, bt) && i < |bt|
    ensures ParentIndex(v, bt, i, i).None? ==>
      EdgesToTree(TimeEdges(v, bt, i + 1)) == EdgesToTree(TimeEdges(v, bt, i))
    ensures ParentIndex(v, bt, i, i).Some? ==>
      EdgesToTree(TimeEdges(v, bt, i + 1))
        == AddChild(EdgesToTree(TimeEdges(v, bt, i)), bt[ParentIndex(v, bt, i, i).value].0, bt[i].0)
  {
    if ParentIndex(v, bt, i, i).None? {
      assert TimeEdges(v, bt, i + 1) == TimeEdges(v, bt, i);
    }
  }

  /** The test of the inner loop: the window check first, and the history
      check only when the window check passes. */
  method Qualifies(repo: Repository, ghost v: Snapshot, bt: seq<Timed>, j: nat, i: nat) returns (b: bool)
    requires repo.View() == v && Walkable(v) && NamesKnown(v, bt) && j < i < |bt|
    ensures b == Near(v, bt, j, i)
  {
    b := false;
    if bt[i].1 - bt[j].1 < CreationWindow {
      b := AreBranchesRelated(repo, bt[j].0, bt[i].0);
    }
  }

  /** The inner loop for child `bt[i]`: scan the older entries from the
      nearest one down and push the child under the first that qualifies. */
  method AttachToParent(repo: Repository, ghost v: Snapshot, bt: seq<Timed>, i: nat, tree: Tree) returns (tree': Tree)
    requires repo.View() == v && Walkable(v) && NamesKnown(v, bt)
    requires 1 <= i < |bt| && tree == EdgesToTree(TimeEdges(v, bt, i))
    ensures tree' == EdgesToTree(TimeEdges(v, bt, i + 1))
  {
    AttachStep(v, bt, i);
    for j := i downto 0
      invariant ParentIndex(v, bt, i, j) == ParentIndex(v, bt, i, i)
    {
      var found := Qualifies(repo, v, bt, j, i);
      if found {
        assert ParentIndex(v, bt, i, j + 1) == Some(j);
        return AddChild(tree, bt[j].0, bt[i].0);
      }
    }
    return tree;
  }

  /** `get_branch_tree_by_creation_time`. */
  method GetBranchTreeByCreationTime(repo: Repository) returns (r: Result<Tree>)
    requires Walkable(repo.View())
    ensures r == Ok(CreationTimeTree(repo.View()))
  {
    ghost var v := repo.View();
    var times := CollectTimes(repo);
    var bt := SortByTime(times);
    SortedNamesKnown(v);
    var tree: Tree := map[];
    if |bt| != 0 {
      assert TimeEdges(v, bt, 1) == [];
      for i := 1 to |bt|
        invariant tree == EdgesToTree(TimeEdges(v, bt, i))
      {
        tree := AttachToParent(repo, v, bt, i, tree);
      }
    }
    return Ok(tree);
  }

  lemma EdgeOfMembership(v: Snapshot, bt: seq<Timed>, k: nat, p: string, c: string)
    requires NamesKnown(v, bt) && k < |bt|
    ensures (p, c) in EdgeOf(v, bt, k) <==> ScanFinds(v, bt, k, p, c)
  {
  }

  /** Every edge a scan finds is recorded. */
  lemma {:induction false} EdgeRecorded(v: Snapshot, bt: seq<Timed>, i: nat, k: nat, p: string, c: string)
    requires NamesKnown(v, bt) && k < i <= |bt| && ScanFinds(v, bt, k, p, c)
    ensures (p, c) in TimeEdges(v, bt, i)
  {
    if k < i - 1 {
      EdgeRecorded(v, bt, i - 1, k, p, c);
    } else {
      EdgeOfMembership(v, bt, k, p, c);
    }
  }

  /** Every recorded edge was found by the scan of some child. */
  lemma {:induction false} EdgeSource(v: Snapshot, bt: seq<Timed>, i: nat, p: string, c: string) returns (k: nat)
    requires NamesKnown(v, bt) && i <= |bt| && (p, c) in TimeEdges(v, bt, i)
    ensures k < i && ScanFinds(v, bt, k, p, c)
  {
    EdgeOfMembership(v, bt, i - 1, p, c);
    if (p, c) in EdgeOf(v, bt, i - 1) {
      k := i - 1;
    } else {
      k := EdgeSource(v, bt, i - 1, p, c);
    }
  }

  /** No name occurs twice. */
  predicate DistinctNames(bt: seq<Timed>) {
    forall i, j :: 0 <= i < j < |bt| ==> bt[i].0 != bt[j].0
  }

  /** In a well-formed repository each branch is dated once. */
  lemma {:induction false} TimesOfDistinct(v: Snapshot, bs: seq<Option<string>>)
    requires Walkable(v) && "" !in v.tips
    requires forall i, j :: 0 <= i < j < |bs| && bs[i].Some? ==> bs[i] != bs[j]
    ensures DistinctNames(TimesOf(v, bs))
  {
    if bs != [] {
      var init := bs[..|bs| - 1];
      var last := bs[|bs| - 1];
      TimesOfDistinct(v, init);
      TimesOfEntries(v, init);
      var a := TimesOf(v, init);
      var e := Entry(v, last);
      if e != [] {
        forall k | 0 <= k < |a|
          ensures a[k].0 != e[0].0
        {
          assert a[k] in a;
          var b :| b in init && NameOrEmpty(b) == a[k].0;
          var m :| 0 <= m < |init| && init[m] == b;
          assert bs[m] == b && m < |bs| - 1;
        }
      }
      assert TimesOf(v, bs) == a + e;
    }
  }

  lemma {:induction false} DistinctCount(a: seq<Timed>, x: Timed)
    requires DistinctNames(a)
    ensures multiset(a)[x] <= 1
  {
    if a != [] {
      assert a == [a[0]] + a[1..];
      DistinctCount(a[1..], x);
      if a[0] == x {
        assert x !in a[1..];
      }
    }
  }

  /** Sorting keeps the names distinct, as long as a name fixes its time. */
  lemma SortKeepsDistinct(v: Snapshot, a: seq<Timed>, b: seq<Timed>)
    requires Walkable(v) && multiset(a) == multiset(b) && DistinctNames(a)
    requires forall e :: e in a ==> e.0 in v.tips && e.1 == v.graph.time[v.tips[e.0]]
    ensures DistinctNames(b)
  {
    forall i, j | 0 <= i < j < |b|
      ensures b[i].0 != b[j].0
    {
      if b[i].0 == b[j].0 {
        assert b[i] in multiset(a) && b[j] in multiset(a);
        assert b[i] == b[j];
        assert b == b[..j] + b[j..];
        assert b[i] in multiset(b[..j]) && b[j] in multiset(b[j..]);
        DistinctCount(a, b[i]);
      }
    }
  }

  lemma BranchTimesDistinct(v: Snapshot)
    requires ValidSnapshot(v)
    ensures DistinctNames(BranchTimes(v))
  {
    TimesOfDistinct(v, v.branches);
    TimesOfEntries(v, v.branches);
    SortKeepsDistinct(v, TimesOf(v, v.branches), BranchTimes(v));
  }

  /** Read back from the tree, `c` is listed under `p` exactly when the scan
      for the entry of `c` stopped at an entry of `p`. */
  lemma CreationTimeTreeEdge(v: Snapshot, p: string, c: string)
    requires Walkable(v)
    ensures NamesKnown(v, BranchTimes(v))
    ensures c in ChildrenOf(CreationTimeTree(v), p) <==>
      exists k :: 0 <= k < |BranchTimes(v)| && ScanFinds(v, BranchTimes(v), k, p, c)
  {
    SortedNamesKnown(v);
    var bt := BranchTimes(v);
    EdgesToTreeMembership(TimeEdges(v, bt, |bt|), p, c);
    if (p, c) in TimeEdges(v, bt, |bt|) {
      var k := EdgeSource(v, bt, |bt|, p, c);
    }
    if exists k :: 0 <= k < |bt| && ScanFinds(v, bt, k, p, c) {
      var k :| 0 <= k < |bt| && ScanFinds(v, bt, k, p, c);
      EdgeRecorded(v, bt, |bt|, k, p, c);
    }
  }

  /** A recorded parent is a branch related to its child by history, dated no
      later than the child and less than 30 days before it. */
  lemma CreationTimeParent(v: Snapshot, p: string, c: string)
    requires Walkable(v) && c in ChildrenOf(CreationTimeTree(v), p)
    ensures p in v.tips && c in v.tips && Related(v, p, c)
    ensures v.graph.time[v.tips[p]] <= v.graph.time[v.tips[c]]
    ensures v.graph.time[v.tips[c]] - v.graph.time[v.tips[p]] < CreationWindow
  {
    CreationTimeTreeEdge(v, p, c);
    var bt := BranchTimes(v);
    var k :| 0 <= k < |bt| && ScanFinds(v, bt, k, p, c);
    var j := ParentIndex(v, bt, k, k).value;
    ParentIndexNearest(v, bt, k, k);
    assert Near(v, bt, j, k);
    SortedNamesKnown(v);
    SortByTimeSorted(TimesOf(v, v.branches));
    assert bt[j].1 <= bt[k].1;
  }

  /** Two scans that find the same child are the same scan. */
  lemma ScanFindsUnique(v: Snapshot, bt: seq<Timed>, k: nat, k': nat, p: string, q: string, c: string)
    requires NamesKnown(v, bt) && DistinctNames(bt) && k < |bt| && k' < |bt|
    requires ScanFinds(v, bt, k, p, c) && ScanFinds(v, bt, k', q, c)
    ensures p == q && p != c
  {
    if k != k' {
      assert false;
    } else {
      var j := ParentIndex(v, bt, k, k).value;
      assert j < k && bt[j].0 != bt[k].0;
    }
  }

  /** Every branch gets at most one parent, and never itself. */
  lemma CreationTimeUniqueParent(v: Snapshot, p: string, q: string, c: string)
    requires ValidSnapshot(v)
    requires c in ChildrenOf(CreationTimeTree(v), p) && c in ChildrenOf(CreationTimeTree(v), q)
    ensures p == q && p != c
  {
    BranchTimesDistinct(v);
    CreationTimeTreeEdge(v, p, c);
    CreationTimeTreeEdge(v, q, c);
    var bt := BranchTimes(v);
    var k :| 0 <= k < |bt| && ScanFinds(v, bt, k, p, c);
    var k' :| 0 <= k' < |bt| && ScanFinds(v, bt, k', q, c);
    ScanFindsUnique(v, bt, k, k', p, q, c);
  }

  /** The oldest dated branch is nobody's child. */
  lemma CreationTimeOldestIsRoot(v: Snapshot, p: string)
    requires ValidSnapshot(v) && |BranchTimes(v)| > 0
    ensures BranchTimes(v)[0].0 !in ChildrenOf(CreationTimeTree(v), p)
  {
    BranchTimesDistinct(v);
    var bt := BranchTimes(v);
    CreationTimeTreeEdge(v, p, bt[0].0);
  }
}
