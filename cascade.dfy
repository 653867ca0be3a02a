/** The `cascade` command of src/commands/cascade.rs: choose a strategy (with
    the interactive fallback to other strategies when the tree comes out
    empty), confirm, and merge every parent into its children depth first
    from the roots. `merge_branch` (src/git/merge.rs) is an oracle whose
    answer only decides whether a warning is logged. */
module Cascade {
  import opened Errors
  import opened Strategy
  import opened BranchTree
  import opened Repo
  import opened Branch
  import opened Settings
  import opened Cli

  /** Every name the tree mentions, as a key or in a list. */
  function Names(t: Tree): set<string> {
    t.Keys + AllChildren(t)
  }

  /** The state a traversal leaves: the branches marked processed and the
      merges attempted, as (parent, child) in the order attempted. */
  datatype Run = Run(processed: set<string>, merges: seq<Edge>)

  /** What `merge_recursive` does from `b` when the branches in `done` are
      already processed: nothing if `b` is one of them, otherwise mark `b`
      and walk its children. */
  function Walk(t: Tree, b: string, done: set<string>): (r: Run)
    requires b in Names(t)
    ensures done <= r.processed && b in r.processed
    decreases Names(t) - done, 0
  {
    if b in done then Run(done, [])
    else WalkChildren(t, b, 0, done + {b})
  }

  /** The children of `b` from position `i` on: merge `b` into the child,
      then walk the child, then go on with the next one. */
  function WalkChildren(t: Tree, b: string, i: nat, done: set<string>): (r: Run)
    requires b in Names(t) && i <= |ChildrenOf(t, b)|
    ensures done <= r.processed
    decreases Names(t) - done, 1, |ChildrenOf(t, b)| - i
  {
    if i == |ChildrenOf(t, b)| then Run(done, [])
    else
      var c := ChildrenOf(t, b)[i];
      assert c in t[b];
      var first := Walk(t, c, done);
      var rest := WalkChildren(t, b, i + 1, first.processed);
      Run(rest.processed, [(b, c)] + first.merges + rest.merges)
  }

  /** The roots walked one after the other, sharing the processed set. */
  function WalkAll(t: Tree, roots: seq<string>, done: set<string>): (r: Run)
    requires forall x :: x in roots ==> x in Names(t)
    ensures done <= r.processed
  {
    if roots == [] then Run(done, [])
    else
      var first := Walk(t, roots[0], done);
      var rest := WalkAll(t, roots[1..], first.processed);
      Run(rest.processed, first.merges + rest.merges)
  }

  /** The children merged from `p`, in the order the merges were attempted. */
  function MergedFrom(merges: seq<Edge>, p: string): seq<string> {
    if merges == [] then []
    else (if merges[0].0 == p then [merges[0].1] else []) + MergedFrom(merges[1..], p)
  }

  lemma {:induction false} MergedFromAppend(a: seq<Edge>, b: seq<Edge>, p: string)
    ensures MergedFrom(a + b, p) == MergedFrom(a, p) + MergedFrom(b, p)
  {
    if a != [] {
      assert (a + b)[1..] == a[1..] + b;
      MergedFromAppend(a[1..], b, p);
    } else {
      assert a + b == b;
    }
  }

  /** The merges whose oracle answer was a failure, which are only logged. */
  function Failed(merges: seq<Edge>, mergeOk: (string, string) -> bool): seq<Edge> {
    if merges == [] then []
    else (if mergeOk(merges[0].0, merges[0].1) then [] else [merges[0]]) + Failed(merges[1..], mergeOk)
  }

  /** The warnings are exactly the attempted merges the oracle refused. */
  lemma {:induction false} FailedExactly(merges: seq<Edge>, mergeOk: (string, string) -> bool, e: Edge)
    ensures e in Failed(merges, mergeOk) <==> e in merges && !mergeOk(e.0, e.1)
  {
    if merges != [] {
      FailedExactly(merges[1..], mergeOk, e);
      assert e in merges <==> e == merges[0] || e in merges[1..];
    }
  }

  lemma {:induction false} FailedAppend(a: seq<Edge>, b: seq<Edge>, mergeOk: (string, string) -> bool)
    ensures Failed(a + b, mergeOk) == Failed(a, mergeOk) + Failed(b, mergeOk)
  {
    if a != [] {
      assert (a + b)[1..] == a[1..] + b;
      FailedAppend(a[1..], b, mergeOk);
    } else {
      assert a + b == b;
    }
  }

  /** At-most-once expansion: a walk merges from exactly the branches it
      newly marks processed, each one into its whole child list, in list
      order, and from no other branch. */
  lemma {:induction false} WalkExpandsOnce(t: Tree, b: string, done: set<string>, p: string)
    requires b in Names(t)
    ensures var r := Walk(t, b, done);
      MergedFrom(r.merges, p) == if p in r.processed && p !in done then ChildrenOf(t, p) else []
    decreases Names(t) - done, 0
  {
    if b !in done {
      WalkChildrenExpand(t, b, 0, done + {b}, p);
      assert ChildrenOf(t, b)[0..] == ChildrenOf(t, b);
    }
  }

  lemma {:induction false} WalkChildrenExpand(t: Tree, b: string, i: nat, done: set<string>, p: string)
    requires b in Names(t) && i <= |ChildrenOf(t, b)| && b in done
    ensures var r := WalkChildren(t, b, i, done);
      MergedFrom(r.merges, p)
        == (if p == b then ChildrenOf(t, b)[i..] else [])
         + (if p in r.processed && p !in done then ChildrenOf(t, p) else [])
    decreases Names(t) - done, 1, |ChildrenOf(t, b)| - i
  {
    if i < |ChildrenOf(t, b)| {
      var c, first, rest := SplitChildren(t, b, i, done, p);
      WalkExpandsOnce(t, c, done, p);
      WalkChildrenExpand(t, b, i + 1, first.processed, p);
      Combine(b, p, c, ChildrenOf(t, b)[i + 1..], ChildrenOf(t, p), done, first.processed, rest.processed,
              MergedFrom(first.merges, p), MergedFrom(rest.merges, p));
    }
  }

  /** The walk of the children from position `i`, split into its first
      merge, the walk below that child, and the walk of the later children. */
  lemma SplitChildren(t: Tree, b: string, i: nat, done: set<string>, p: string)
    returns (c: string, first: Run, rest: Run)
    requires b in Names(t) && i < |ChildrenOf(t, b)|
    ensures c == ChildrenOf(t, b)[i] && c in Names(t)
    ensures first == Walk(t, c, done) && rest == WalkChildren(t, b, i + 1, first.processed)
    ensures WalkChildren(t, b, i, done).processed == rest.processed
    ensures MergedFrom(WalkChildren(t, b, i, done).merges, p)
      == (if b == p then [c] else []) + MergedFrom(first.merges, p) + MergedFrom(rest.merges, p)
    ensures ChildrenOf(t, b)[i..] == [c] + ChildrenOf(t, b)[i + 1..]
  {
    c := ChildrenOf(t, b)[i];
    assert c in t[b];
    first := Walk(t, c, done);
    rest := WalkChildren(t, b, i + 1, first.processed);
    assert WalkChildren(t, b, i, done).merges == [(b, c)] + first.merges + rest.merges;
    MergedFromCons((b, c), first.merges, rest.merges, p);
  }

  lemma MergedFromCons(e: Edge, x: seq<Edge>, y: seq<Edge>, p: string)
    ensures MergedFrom([e] + x + y, p) == (if e.0 == p then [e.1] else []) + MergedFrom(x, p) + MergedFrom(y, p)
  {
    MergedFromAppend([e] + x, y, p);
    assert ([e] + x)[1..] == x;
  }

  /** The bookkeeping step of `WalkChildrenExpand`, on plain values. */
  lemma Combine(b: string, p: string, c: string, tail: seq<string>, cp: seq<string>,
                done: set<string>, p1: set<string>, p2: set<string>, a: seq<string>, r: seq<string>)
    requires done <= p1 <= p2 && b in done
    requires a == if p in p1 && p !in done then cp else []
    requires r == (if p == b then tail else []) + (if p in p2 && p !in p1 then cp else [])
    ensures (if p == b then [c] else []) + a + r
      == (if p == b then [c] + tail else []) + (if p in p2 && p !in done then cp else [])
  {
  }

  /** The same for a run over several roots. */
  lemma {:induction false} WalkAllExpandsOnce(t: Tree, roots: seq<string>, done: set<string>, p: string)
    requires forall x :: x in roots ==> x in Names(t)
    ensures var r := WalkAll(t, roots, done);
      MergedFrom(r.merges, p) == if p in r.processed && p !in done then ChildrenOf(t, p) else []
  {
    if roots != [] {
      var first := Walk(t, roots[0], done);
      WalkExpandsOnce(t, roots[0], done, p);
      WalkAllExpandsOnce(t, roots[1..], first.processed, p);
      MergedFromAppend(first.merges, WalkAll(t, roots[1..], first.processed).merges, p);
    }
  }

  /** Every merge attempted follows an edge of the tree. */
  lemma MergesFollowEdges(t: Tree, roots: seq<string>, e: Edge)
    requires forall x :: x in roots ==> x in Names(t)
    requires e in WalkAll(t, roots, {}).merges
    ensures e.0 in t && e.1 in t[e.0]
  {
    var ms := WalkAll(t, roots, {}).merges;
    MergedFromMember(ms, e);
    WalkAllExpandsOnce(t, roots, {}, e.0);
  }

  lemma {:induction false} MergedFromMember(merges: seq<Edge>, e: Edge)
    requires e in merges
    ensures e.1 in MergedFrom(merges, e.0)
  {
    if merges[0] != e {
      MergedFromMember(merges[1..], e);
    }
  }

  /** A sequence of names, each a child of the one before it. */
  ghost predicate IsPath(t: Tree, path: seq<string>) {
    |path| >= 1 && forall i :: 0 <= i < |path| - 1 ==> path[i + 1] in ChildrenOf(t, path[i])
  }

  /** Every branch a walk marks is reachable from where the walk began. */
  lemma {:induction false} WalkReaches(t: Tree, b: string, done: set<string>, x: string) returns (path: seq<string>)
    requires b in Names(t) && x in Walk(t, b, done).processed - done
    ensures IsPath(t, path) && path[0] == b && path[|path| - 1] == x
    decreases Names(t) - done, 0
  {
    if x == b {
      path := [b];
    } else {
      path := WalkChildrenReach(t, b, 0, done + {b}, x);
    }
  }

  lemma {:induction false} WalkChildrenReach(t: Tree, b: string, i: nat, done: set<string>, x: string) returns (path: seq<string>)
    requires b in Names(t) && i <= |ChildrenOf(t, b)|
    requires x in WalkChildren(t, b, i, done).processed - done
    ensures IsPath(t, path) && path[0] == b && path[|path| - 1] == x
    decreases Names(t) - done, 1, |ChildrenOf(t, b)| - i
  {
    var c := ChildrenOf(t, b)[i];
    assert c in t[b];
    var first := Walk(t, c, done);
    if x in first.processed {
      var tail := WalkReaches(t, c, done, x);
      path := [b] + tail;
      assert forall k :: 1 <= k < |path| ==> path[k] == tail[k - 1];
    } else {
      path := WalkChildrenReach(t, b, i + 1, first.processed, x);
    }
  }

  /** Only branches reachable from a root are expanded. */
  lemma {:induction false} WalkAllReaches(t: Tree, roots: seq<string>, done: set<string>, x: string) returns (k: nat, path: seq<string>)
    requires forall y :: y in roots ==> y in Names(t)
    requires x in WalkAll(t, roots, done).processed - done
    ensures k < |roots| && IsPath(t, path) && path[0] == roots[k] && path[|path| - 1] == x
  {
    var first := Walk(t, roots[0], done);
    if x in first.processed {
      path := WalkReaches(t, roots[0], done, x);
      k := 0;
    } else {
      k, path := WalkAllReaches(t, roots[1..], first.processed, x);
      k := k + 1;
    }
  }

  /** No branch is left half expanded: every child of a branch a run
      marked processed (beyond those already done) is processed too. */
  ghost predicate ClosedBeyond(t: Tree, processed: set<string>, done: set<string>) {
    forall p :: p in processed - done ==> forall c :: c in ChildrenOf(t, p) ==> c in processed
  }

  /** A walk processes its start and is closed under children. */
  lemma {:induction false} WalkCloses(t: Tree, b: string, done: set<string>)
    requires b in Names(t)
    ensures ClosedBeyond(t, Walk(t, b, done).processed, done)
    decreases Names(t) - done, 0
  {
    if b !in done {
      var r := WalkChildren(t, b, 0, done + {b});
      WalkChildrenCloses(t, b, 0, done + {b});
      assert forall c :: c in ChildrenOf(t, b) ==> c in r.processed;
    }
  }

  /** The walk of the children from position `i` processes each of them
      and is closed under children. */
  lemma {:induction false} WalkChildrenCloses(t: Tree, b: string, i: nat, done: set<string>)
    requires b in Names(t) && i <= |ChildrenOf(t, b)|
    ensures var r := WalkChildren(t, b, i, done);
      (forall j :: i <= j < |ChildrenOf(t, b)| ==> ChildrenOf(t, b)[j] in r.processed)
      && ClosedBeyond(t, r.processed, done)
    decreases Names(t) - done, 1, |ChildrenOf(t, b)| - i
  {
    if i < |ChildrenOf(t, b)| {
      var c := ChildrenOf(t, b)[i];
      assert c in t[b];
      var first := Walk(t, c, done);
      WalkCloses(t, c, done);
      WalkChildrenCloses(t, b, i + 1, first.processed);
    }
  }

  /** Runs over several roots: every root is processed and the result is
      closed under children. */
  lemma {:induction false} WalkAllCloses(t: Tree, roots: seq<string>, done: set<string>)
    requires forall x :: x in roots ==> x in Names(t)
    ensures var r := WalkAll(t, roots, done);
      (forall x :: x in roots ==> x in r.processed) && ClosedBeyond(t, r.processed, done)
  {
    if roots != [] {
      var first := Walk(t, roots[0], done);
      WalkCloses(t, roots[0], done);
      WalkAllCloses(t, roots[1..], first.processed);
      assert forall x :: x in roots ==> x == roots[0] || x in roots[1..];
    }
  }

  /** A path that starts in a set closed under children stays in it. */
  lemma {:induction false} PathStaysIn(t: Tree, path: seq<string>, processed: set<string>)
    requires IsPath(t, path) && path[0] in processed && ClosedBeyond(t, processed, {})
    ensures path[|path| - 1] in processed
  {
    var i := 0;
    while i < |path| - 1
      invariant 0 <= i <= |path| - 1 && path[i] in processed
    {
      assert path[i + 1] in ChildrenOf(t, path[i]);
      i := i + 1;
    }
  }

  /** Every branch reachable from a root is processed by the run from the
      roots. */
  lemma WalkAllCovers(t: Tree, roots: seq<string>, k: nat, path: seq<string>)
    requires forall x :: x in roots ==> x in Names(t)
    requires k < |roots| && IsPath(t, path) && path[0] == roots[k]
    ensures path[|path| - 1] in WalkAll(t, roots, {}).processed
  {
    WalkAllCloses(t, roots, {});
    PathStaysIn(t, path, WalkAll(t, roots, {}).processed);
  }

  /** `p` can be reached from one of the roots along the tree's edges. */
  ghost predicate ReachableFromRoots(t: Tree, roots: seq<string>, p: string) {
    exists k: nat, path: seq<string> :: k < |roots| && IsPath(t, path) && path[0] == roots[k] && path[|path| - 1] == p
  }

  /** The run from the roots processes exactly the branches reachable from
      a root. */
  lemma ProcessedIffReachable(t: Tree, roots: seq<string>, p: string)
    requires forall x :: x in roots ==> x in Names(t)
    ensures p in WalkAll(t, roots, {}).processed <==> ReachableFromRoots(t, roots, p)
  {
    if p in WalkAll(t, roots, {}).processed {
      var k, path := WalkAllReaches(t, roots, {}, p);
    }
    if ReachableFromRoots(t, roots, p) {
      var k: nat, path: seq<string> :| k < |roots| && IsPath(t, path) && path[0] == roots[k] && path[|path| - 1] == p;
      WalkAllCovers(t, roots, k, path);
    }
  }

  /** The cascade merges from every branch reachable from a root exactly
      once, into its whole child list in order, and from no other branch. */
  lemma ReachableMergedOnce(t: Tree, roots: seq<string>, p: string)
    requires forall x :: x in roots ==> x in Names(t)
    ensures ReachableFromRoots(t, roots, p) ==> MergedFrom(WalkAll(t, roots, {}).merges, p) == ChildrenOf(t, p)
    ensures !ReachableFromRoots(t, roots, p) ==> MergedFrom(WalkAll(t, roots, {}).merges, p) == []
  {
    WalkAllExpandsOnce(t, roots, {}, p);
    ProcessedIffReachable(t, roots, p);
  }

  /** When every key is also someone's child there is no root, so nothing is
      merged. */
  lemma NoRootNoMerges(t: Tree, keys: seq<string>)
    requires Distinct(keys) && (forall k :: k in keys <==> k in t)
    requires forall k :: k in t ==> k in AllChildren(t)
    ensures FindRootBranches(t, keys) == []
    ensures WalkAll(t, FindRootBranches(t, keys), {}).merges == []
  {
    AllExcluded(keys, AllChildren(t));
  }

  lemma {:induction false} AllExcluded(keys: seq<string>, excluded: set<string>)
    requires forall k :: k in keys ==> k in excluded
    ensures KeysNotIn(keys, excluded) == []
  {
    if keys != [] {
      assert keys[0] in keys;
      AllExcluded(keys[1..], excluded);
    }
  }

  /** One child of the loop in `merge_recursive`: merging into the child and
      walking it moves the walk of the remaining children one step on. */
  lemma WalkChildrenStep(t: Tree, b: string, i: nat, p0: set<string>, m0: seq<Edge>, p': set<string>, m': seq<Edge>, whole: Run)
    returns (rest': Run)
    requires b in Names(t) && i < |ChildrenOf(t, b)| && ChildrenOf(t, b)[i] in Names(t)
    requires Run(p', m') == Walk(t, ChildrenOf(t, b)[i], p0)
    requires var rest := WalkChildren(t, b, i, p0); whole == Run(rest.processed, m0 + rest.merges)
    ensures rest' == WalkChildren(t, b, i + 1, p')
    ensures whole == Run(rest'.processed, (m0 + [(b, ChildrenOf(t, b)[i])] + m') + rest'.merges)
  {
    rest' := WalkChildren(t, b, i + 1, p');
    var e := (b, ChildrenOf(t, b)[i]);
    assert WalkChildren(t, b, i, p0) == Run(rest'.processed, [e] + m' + rest'.merges);
    assert m0 + ([e] + m' + rest'.merges) == (m0 + [e] + m') + rest'.merges;
  }

  /** The warnings after one more merge and the walk below it. */
  lemma FailedStep(m0: seq<Edge>, e: Edge, m': seq<Edge>, mergeOk: (string, string) -> bool)
    ensures Failed(m0 + [e] + m', mergeOk)
      == Failed(m0, mergeOk) + (if mergeOk(e.0, e.1) then [] else [e]) + Failed(m', mergeOk)
  {
    FailedAppend(m0 + [e], m', mergeOk);
    FailedAppend(m0, [e], mergeOk);
    FailedOne(e, mergeOk);
  }

  lemma FailedOne(e: Edge, mergeOk: (string, string) -> bool)
    ensures Failed([e], mergeOk) == if mergeOk(e.0, e.1) then [] else [e]
  {
    assert [e][1..] == [];
  }

  /** `merge_recursive`: the processed set travels in and out, as the
      `&mut HashMap` does; `warnings` are the failed merges that were logged. */
  method MergeRecursive(t: Tree, b: string, done: set<string>, mergeOk: (string, string) -> bool)
    returns (r: Result<()>, processed: set<string>, merges: seq<Edge>, warnings: seq<Edge>)
    requires b in Names(t)
    ensures r == Ok(())
    ensures Run(processed, merges) == Walk(t, b, done)
    ensures warnings == Failed(merges, mergeOk)
    decreases Names(t) - done, 1
  {
    if b in done {
      return Ok(()), done, [], [];
    }
    processed, merges, warnings := MergeChildren(t, b, done + {b}, mergeOk);
    r := Ok(());
  }

  /** The loop of `merge_recursive` over the children of `b`, once `b` is
      marked processed: merge `b` into each child, then recurse into it. */
  method MergeChildren(t: Tree, b: string, start: set<string>, mergeOk: (string, string) -> bool)
    returns (processed: set<string>, merges: seq<Edge>, warnings: seq<Edge>)
    requires b in Names(t) && b in start
    ensures Run(processed, merges) == WalkChildren(t, b, 0, start)
    ensures warnings == Failed(merges, mergeOk)
    decreases Names(t) - start + {b}, 0
  {
    processed, merges, warnings := start, [], [];
    var children := ChildrenOf(t, b);
    ghost var whole := WalkChildren(t, b, 0, start);
    ghost var rest := whole;
    assert merges + rest.merges == rest.merges;
    for i := 0 to |children|
      invariant start <= processed
      invariant rest == WalkChildren(t, b, i, processed)
      invariant whole == Run(rest.processed, merges + rest.merges)
      invariant warnings == Failed(merges, mergeOk)
    {
      var c := children[i];
      assert c in t[b];
      var failed := !mergeOk(b, c);
      var _, p', m', w' := MergeRecursive(t, c, processed, mergeOk);
      rest := WalkChildrenStep(t, b, i, processed, merges, p', m', whole);
      FailedStep(merges, (b, c), m', mergeOk);
      processed, merges, warnings := p', merges + [(b, c)] + m', warnings + (if failed then [(b, c)] else []) + w';
    }
    assert merges + rest.merges == merges;
  }

  const CancelledMessage := "Merge operation cancelled"

  /** The strategies offered when the tree comes out empty, in this order. */
  const Alternatives: seq<BranchRelationStrategy> := [CreationTime, DefaultRoot, BranchRelationStrategy.Manual]

  /** One yes/no prompt: the decision and the answers left. Each answer is
      the decision `Display.Confirmed` takes from the line typed; at the end
      of input the line read is empty, which declines
      (`Display.NotConfirmedAtEnd`). */
  function Ask(answers: seq<bool>): (r: (bool, seq<bool>))
    ensures r.0 <==> answers != [] && answers[0]
    ensures r.1 == if answers == [] then [] else answers[1..]
  {
    if answers == [] then (false, []) else (answers[0], answers[1..])
  }

  /** Where strategy selection stands: the strategy last used, its tree, the
      answers not yet read, and whether the strategy is to be saved. */
  datatype Choice = Choice(strategy: BranchRelationStrategy, tree: Tree, answers: seq<bool>, persist: bool)

  /** The trees of the alternatives, in the order they are offered. */
  ghost function AlternativeTrees(v: Snapshot, base: string, manual: Tree): (r: seq<Result<Tree>>)
    requires ValidSnapshot(v)
    ensures |r| == |Alternatives|
    ensures forall k :: 0 <= k < |Alternatives| ==> r[k] == StrategyTree(v, Alternatives[k], base, manual)
  {
    [StrategyTree(v, Alternatives[0], base, manual),
     StrategyTree(v, Alternatives[1], base, manual),
     StrategyTree(v, Alternatives[2], base, manual)]
  }

  /** The fallback loop from alternative `k` on, `trees[k]` being the tree
      alternative `k` builds: skip the alternative equal to the strategy
      last used, ask before trying any other, stop at the first non-empty
      tree and ask whether to save its strategy. */
  function Fallback(trees: seq<Result<Tree>>, c: Choice, k: nat): Result<Choice>
    requires |trees| == |Alternatives| && k <= |Alternatives|
    decreases |Alternatives| - k
  {
    if k == |Alternatives| then Ok(c)
    else if Alternatives[k] == c.strategy then Fallback(trees, c, k + 1)
    else
      var (accepted, rest) := Ask(c.answers);
      if !accepted then Fallback(trees, c.(answers := rest), k + 1)
      else match trees[k]
        case Err(e) => Err(e)
        case Ok(t) =>
          if t != map[] then
            var (save, rest') := Ask(rest);
            Ok(Choice(Alternatives[k], t, rest', save))
          else Fallback(trees, Choice(Alternatives[k], t, rest, false), k + 1)
  }

  /** The strategy and tree `handle_cascade` ends up with: the one given on
      the command line, else the configured one, and the fallback loop only
      when that tree is empty and no strategy was given. */
  ghost function Plan(v: Snapshot, d: ConfigData, strategyOpt: Option<BranchDetectionStrategy>, answers: seq<bool>): Result<Choice>
    requires ValidSnapshot(v)
  {
    var s := if strategyOpt.Some? then ToRelationStrategy(strategyOpt.value) else d.branchDetectionStrategy;
    match StrategyTree(v, s, d.defaultBaseBranch, d.branchRelationships)
    case Err(e) => Err(e)
    case Ok(t) =>
      if t == map[] && strategyOpt.None? then
        Fallback(AlternativeTrees(v, d.defaultBaseBranch, d.branchRelationships), Choice(s, t, answers, false), 0)
      else Ok(Choice(s, t, answers, false))
  }

  /** The alternative equal to the strategy last used is skipped. */
  lemma FallbackSkipped(trees: seq<Result<Tree>>, c: Choice, k: nat)
    requires |trees| == |Alternatives| && k < |Alternatives| && Alternatives[k] == c.strategy
    ensures Fallback(trees, c, k) == Fallback(trees, c, k + 1)
  {
  }

  /** A declined alternative consumes one answer and is not tried. */
  lemma FallbackDeclined(trees: seq<Result<Tree>>, c: Choice, k: nat)
    requires |trees| == |Alternatives| && k < |Alternatives| && Alternatives[k] != c.strategy && !Ask(c.answers).0
    ensures Fallback(trees, c, k) == Fallback(trees, c.(answers := Ask(c.answers).1), k + 1)
  {
  }

  /** An accepted alternative whose tree cannot be built ends the loop with
      that error. */
  lemma FallbackFailed(trees: seq<Result<Tree>>, c: Choice, k: nat)
    requires |trees| == |Alternatives| && k < |Alternatives| && Alternatives[k] != c.strategy && Ask(c.answers).0
    requires trees[k].Err?
    ensures Fallback(trees, c, k) == Err(trees[k].error)
  {
  }

  /** An accepted alternative with a non-empty tree ends the loop, after the
      question whether to save it. */
  lemma FallbackFound(trees: seq<Result<Tree>>, c: Choice, k: nat)
    requires |trees| == |Alternatives| && k < |Alternatives| && Alternatives[k] != c.strategy && Ask(c.answers).0
    requires trees[k].Ok? && trees[k].value != map[]
    ensures var save := Ask(Ask(c.answers).1);
      Fallback(trees, c, k) == Ok(Choice(Alternatives[k], trees[k].value, save.1, save.0))
  {
  }

  /** An accepted alternative with an empty tree becomes the strategy last
      used, and the loop goes on. */
  lemma FallbackEmpty(trees: seq<Result<Tree>>, c: Choice, k: nat)
    requires |trees| == |Alternatives| && k < |Alternatives| && Alternatives[k] != c.strategy && Ask(c.answers).0
    requires trees[k] == Ok(map[])
    ensures Fallback(trees, c, k) == Fallback(trees, Choice(Alternatives[k], map[], Ask(c.answers).1, false), k + 1)
  {
  }

  /** Past the last alternative the choice stands. */
  lemma FallbackExhausted(trees: seq<Result<Tree>>, c: Choice)
    requires |trees| == |Alternatives|
    ensures Fallback(trees, c, |Alternatives|) == Ok(c)
  {
  }

  /** When every answer declines no alternative is tried: the choice comes
      back with its strategy, tree and persistence unchanged. */
  lemma {:induction false} AllDeclinedTriesNothing(trees: seq<Result<Tree>>, c: Choice, k: nat)
    requires |trees| == |Alternatives| && k <= |Alternatives|
    requires forall i :: 0 <= i < |c.answers| ==> !c.answers[i]
    ensures Fallback(trees, c, k).Ok?
    ensures var r := Fallback(trees, c, k).value;
      r.strategy == c.strategy && r.tree == c.tree && r.persist == c.persist
    decreases |Alternatives| - k
  {
    if k < |Alternatives| {
      if Alternatives[k] == c.strategy {
        AllDeclinedTriesNothing(trees, c, k + 1);
      } else {
        var rest := Ask(c.answers).1;
        assert forall i :: 0 <= i < |rest| ==> rest[i] == c.answers[i + 1];
        AllDeclinedTriesNothing(trees, c.(answers := rest), k + 1);
      }
    }
  }

  /** A non-empty tree out of the loop is the tree of the alternative whose
      strategy comes back, one at or after position `k`. */
  lemma {:induction false} FoundTreeOfItsStrategy(trees: seq<Result<Tree>>, c: Choice, k: nat) returns (j: nat)
    requires |trees| == |Alternatives| && k <= |Alternatives| && c.tree == map[]
    requires Fallback(trees, c, k).Ok? && Fallback(trees, c, k).value.tree != map[]
    ensures k <= j < |Alternatives|
    ensures Alternatives[j] == Fallback(trees, c, k).value.strategy
    ensures trees[j] == Ok(Fallback(trees, c, k).value.tree)
    decreases |Alternatives| - k
  {
    if k == |Alternatives| {
      assert false;
    } else if Alternatives[k] == c.strategy {
      j := FoundTreeOfItsStrategy(trees, c, k + 1);
    } else if !Ask(c.answers).0 {
      j := FoundTreeOfItsStrategy(trees, c.(answers := Ask(c.answers).1), k + 1);
    } else if trees[k].Err? {
      assert false;
    } else if trees[k].value != map[] {
      j := k;
    } else {
      j := FoundTreeOfItsStrategy(trees, Choice(Alternatives[k], map[], Ask(c.answers).1, false), k + 1);
    }
  }

  /** The loop stops at the first non-empty tree the user accepts: when
      every answer is yes, the alternatives from `k` up to `i` build empty
      trees, and alternative `i` differs from the strategy last used and
      builds a non-empty tree, that tree is the outcome, with its strategy
      to be saved. The later alternatives are never tried. */
  lemma {:induction false} FallbackStopsAtFirstFound(trees: seq<Result<Tree>>, c: Choice, k: nat, i: nat)
    requires |trees| == |Alternatives| && k <= i < |Alternatives|
    requires Alternatives[i] != c.strategy
    requires forall j :: k <= j < i ==> trees[j] == Ok(map[])
    requires trees[i].Ok? && trees[i].value != map[]
    requires |c.answers| >= i - k + 2 && forall n :: 0 <= n < |c.answers| ==> c.answers[n]
    ensures Fallback(trees, c, k).Ok?
    ensures var r := Fallback(trees, c, k).value;
      r.strategy == Alternatives[i] && r.tree == trees[i].value && r.persist
    decreases i - k
  {
    var rest := Ask(c.answers).1;
    assert forall n :: 0 <= n < |rest| ==> rest[n] == c.answers[n + 1];
    if k == i {
      FallbackFound(trees, c, k);
    } else if Alternatives[k] == c.strategy {
      FallbackSkipped(trees, c, k);
      FallbackStopsAtFirstFound(trees, c, k + 1, i);
    } else {
      FallbackEmpty(trees, c, k);
      FallbackStopsAtFirstFound(trees, Choice(Alternatives[k], map[], rest, false), k + 1, i);
    }
  }

  /** The skip test compares with the strategy last tried, not the one
      configured: starting from DefaultRoot with every tree empty and every
      answer yes, DefaultRoot is offered again after CreationTime, so three
      answers are read instead of two. */
  lemma ConfiguredStrategyOfferedAgain()
    ensures Fallback([Ok(map[]), Ok(map[]), Ok(map[])], Choice(DefaultRoot, map[], [true, true, true], false), 0)
      == Ok(Choice(BranchRelationStrategy.Manual, map[], [], false))
  {
    var trees: seq<Result<Tree>> := [Ok(map[]), Ok(map[]), Ok(map[])];
    FallbackEmpty(trees, Choice(DefaultRoot, map[], [true, true, true], false), 0);
    FallbackEmpty(trees, Choice(CreationTime, map[], [true, true], false), 1);
    FallbackEmpty(trees, Choice(DefaultRoot, map[], [true], false), 2);
    FallbackExhausted(trees, Choice(BranchRelationStrategy.Manual, map[], [], false));
  }

  /** The fallback loop of `handle_cascade`, from an empty tree: the
      configuration is written only when the user asks to save the strategy
      that found a tree. */
  method TryAlternatives(repo: Repository, config: Config, start: Choice) returns (r: Result<Choice>)
    requires repo.Valid() && config.saved == config.Data()
    requires start.tree == map[] && !start.persist
    modifies config
    ensures r == Fallback(AlternativeTrees(repo.View(), old(config.defaultBaseBranch), old(config.branchRelationships)), start, 0)
    ensures config.Data()
      == if r.Ok? && r.value.persist then old(config.Data()).(branchDetectionStrategy := r.value.strategy)
         else old(config.Data())
    ensures config.saved == config.Data()
  {
    ghost var d := config.Data();
    ghost var trees := AlternativeTrees(repo.View(), d.defaultBaseBranch, d.branchRelationships);
    ghost var goal := Fallback(trees, start, 0);
    var c := start;
    var k := 0;
    while k < |Alternatives|
      invariant k <= |Alternatives|
      invariant config.Data() == d && config.saved == config.Data()
      invariant c.tree == map[] && !c.persist
      invariant goal == Fallback(trees, c, k)
      decreases |Alternatives| - k
    {
      var next, found := TryAlternative(repo, config, d, trees, goal, c, k);
      if next.Err? || found {
        return next;
      }
      c := next.value;
      k := k + 1;
    }
    FallbackExhausted(trees, c);
    return Ok(c);
  }

  /** One round of the fallback loop: alternative `k` is skipped, declined,
      fails, finds a tree (`found`), or finds none and the loop goes on with
      the choice returned. */
  method TryAlternative(repo: Repository, config: Config, ghost d: ConfigData, ghost trees: seq<Result<Tree>>, ghost goal: Result<Choice>,
                         c: Choice, k: nat)
    returns (r: Result<Choice>, found: bool)
    requires repo.Valid() && config.saved == config.Data() && config.Data() == d
    requires trees == AlternativeTrees(repo.View(), d.defaultBaseBranch, d.branchRelationships)
    requires k < |Alternatives| && c.tree == map[] && !c.persist
    requires goal == Fallback(trees, c, k)
    modifies config
    ensures r.Err? || found ==> r == goal
    ensures r.Ok? && !found ==>
      && r.value.tree == map[] && !r.value.persist
      && goal == Fallback(trees, r.value, k + 1)
    ensures config.Data()
      == if r.Ok? && found && r.value.persist then old(config.Data()).(branchDetectionStrategy := r.value.strategy)
         else old(config.Data())
    ensures config.saved == config.Data()
  {
    var alt := Alternatives[k];
    if alt == c.strategy {
      FallbackSkipped(trees, c, k);
      return Ok(c), false;
    }
    var (accepted, rest) := Ask(c.answers);
    if !accepted {
      FallbackDeclined(trees, c, k);
      return Ok(c.(answers := rest)), false;
    }
    var tree := GetBranchTree(repo, alt, config);
    if tree.Err? {
      FallbackFailed(trees, c, k);
      return Err(tree.error), false;
    }
    if tree.value == map[] {
      FallbackEmpty(trees, c, k);
      return Ok(Choice(alt, map[], rest, false)), false;
    }
    var (save, rest') := Ask(rest);
    FallbackFound(trees, c, k);
    if save {
      config.SetBranchDetectionStrategy(alt);
    }
    return Ok(Choice(alt, tree.value, rest', save)), true;
  }

  /** The merges of `handle_cascade`: `merge_recursive` from each root in
      turn, the processed set shared between them. */
  method MergeRoots(t: Tree, roots: seq<string>, mergeOk: (string, string) -> bool) returns (merges: seq<Edge>, warnings: seq<Edge>)
    requires forall x :: x in roots ==> x in Names(t)
    ensures merges == WalkAll(t, roots, {}).merges
    ensures warnings == Failed(merges, mergeOk)
  {
    merges, warnings := [], [];
    var processed: set<string> := {};
    for j := 0 to |roots|
      invariant var rest := WalkAll(t, roots[j..], processed);
        WalkAll(t, roots, {}) == Run(rest.processed, merges + rest.merges)
      invariant warnings == Failed(merges, mergeOk)
    {
      var _, p', m', w' := MergeRecursive(t, roots[j], processed, mergeOk);
      WalkAllStep(t, roots, j, processed, merges, p', m');
      FailedAppend(merges, m', mergeOk);
      processed, merges, warnings := p', merges + m', warnings + w';
    }
    assert roots[|roots|..] == [];
  }

  /** `handle_cascade`, with the configuration already loaded, the lines the
      user gives, line by line, as `answers` and `merge_branch` as `mergeOk`. `keys` is the
      order in which the tree's keys were enumerated. */
  method HandleCascade(repo: Repository, config: Config, yes: bool, strategyOpt: Option<BranchDetectionStrategy>,
                       answers: seq<bool>, mergeOk: (string, string) -> bool)
    returns (r: Result<()>, merges: seq<Edge>, warnings: seq<Edge>, keys: seq<string>)
    requires repo.Valid() && config.saved == config.Data()
    modifies config
    ensures var plan := Plan(repo.View(), old(config.Data()), strategyOpt, answers);
      && (plan.Err? ==> r == Err(plan.error) && merges == [] && config.Data() == old(config.Data()))
      && (plan.Ok? ==>
            config.Data() == if plan.value.persist then old(config.Data()).(branchDetectionStrategy := plan.value.strategy)
                             else old(config.Data()))
      && (plan.Ok? && plan.value.tree == map[] ==> r == Ok(()) && merges == [])
      && (plan.Ok? && plan.value.tree != map[] && !yes && !Ask(plan.value.answers).0 ==>
            r == Err(Aborted(CancelledMessage)) && merges == [])
      && (plan.Ok? && plan.value.tree != map[] && (yes || Ask(plan.value.answers).0) ==>
            && r == Ok(())
            && Distinct(keys) && (forall k :: k in keys <==> k in plan.value.tree)
            && merges == WalkAll(plan.value.tree, FindRootBranches(plan.value.tree, keys), {}).merges
            && warnings == Failed(merges, mergeOk))
    ensures config.saved == config.Data()
  {
    merges, warnings, keys := [], [], [];
    var strategy := if strategyOpt.Some? then ToRelationStrategy(strategyOpt.value) else config.branchDetectionStrategy;
    var tree :- GetBranchTree(repo, strategy, config);
    var choice := Choice(strategy, tree, answers, false);
    if tree == map[] && strategyOpt.None? {
      choice :- TryAlternatives(repo, config, choice);
    }
    if choice.tree == map[] {
      return Ok(()), merges, warnings, keys;
    }
    if !yes && !Ask(choice.answers).0 {
      return Err(Aborted(CancelledMessage)), merges, warnings, keys;
    }
    keys := KeyOrder(choice.tree);
    var roots := FindRootBranches(choice.tree, keys);
    merges, warnings := MergeRoots(choice.tree, roots, mergeOk);
    return Ok(()), merges, warnings, keys;
  }

  /** One root of the loop in `handle_cascade`. */
  lemma WalkAllStep(t: Tree, roots: seq<string>, j: nat, p0: set<string>, m0: seq<Edge>, p': set<string>, m': seq<Edge>)
    requires j < |roots| && (forall x :: x in roots ==> x in Names(t))
    requires Run(p', m') == Walk(t, roots[j], p0)
    requires var rest := WalkAll(t, roots[j..], p0); WalkAll(t, roots, {}) == Run(rest.processed, m0 + rest.merges)
    ensures var rest := WalkAll(t, roots[j + 1..], p'); WalkAll(t, roots, {}) == Run(rest.processed, (m0 + m') + rest.merges)
  {
    assert roots[j..][1..] == roots[j + 1..];
    assert roots[j..][0] == roots[j];
  }
}
