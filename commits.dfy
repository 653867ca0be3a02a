/** The part of the version-control backend that relationship detection
    reads: commits, their parents, their timestamps, and whether two commits
    have a merge base. Ancestry is reachability along parent links; the
    revision walk of `is_descendant_of` (src/git/branch.rs) is modelled as the
    worklist traversal it performs. */
module Commits {

  type CommitId = nat

  datatype CommitGraph = CommitGraph(
    parents: map<CommitId, seq<CommitId>>,  // every known commit, with its parent ids
    time: map<CommitId, int>,               // commit time, in seconds
    mergeBases: set<(CommitId, CommitId)>)  // the pairs for which `merge_base` succeeds

  /** Every parent of a known commit is known and has a timestamp. */
  predicate Valid(g: CommitGraph) {
    && (forall c, p :: c in g.parents && p in g.parents[c] ==> p in g.parents)
    && g.time.Keys == g.parents.Keys
  }

  /** A walk from `path[0]` that follows parent links at each step. */
  ghost predicate IsPath(g: CommitGraph, path: seq<CommitId>) {
    && |path| >= 1
    && (forall i :: 0 <= i < |path| ==> path[i] in g.parents)
    && (forall i :: 0 <= i < |path| - 1 ==> path[i + 1] in g.parents[path[i]])
  }

  /** `to` is `from` or one of its ancestors. */
  ghost predicate Reaches(g: CommitGraph, from: CommitId, to: CommitId) {
    exists path :: IsPath(g, path) && path[0] == from && path[|path| - 1] == to
  }

  /** `commit` strictly descends from `ancestor`. */
  ghost predicate Descends(g: CommitGraph, commit: CommitId, ancestor: CommitId) {
    commit != ancestor && Reaches(g, commit, ancestor)
  }

  /** A set closed under parent links. */
  ghost predicate Closed(g: CommitGraph, s: set<CommitId>) {
    forall x, p :: x in s && x in g.parents && p in g.parents[x] ==> p in s
  }

  /** Nothing reachable escapes a closed set. */
  lemma {:induction false} ClosedHoldsPath(g: CommitGraph, s: set<CommitId>, path: seq<CommitId>)
    requires Closed(g, s) && IsPath(g, path) && path[0] in s
    ensures path[|path| - 1] in s
  {
    if |path| > 1 {
      var init := path[..|path| - 1];
      assert IsPath(g, init);
      ClosedHoldsPath(g, s, init);
      assert path[|path| - 2] == init[|init| - 1];
    }
  }

  /** A commit outside a closed set that holds `from` is not an ancestor of
      `from`. */
  lemma ClosedExcludes(g: CommitGraph, s: set<CommitId>, from: CommitId, to: CommitId)
    requires Closed(g, s) && from in s && to !in s
    ensures !Reaches(g, from, to)
  {
    forall path | IsPath(g, path) && path[0] == from
      ensures path[|path| - 1] != to
    {
      ClosedHoldsPath(g, s, path);
    }
  }

  /** Every entry of `via` is a walk from `root` to its key. */
  ghost predicate PathsFrom(g: CommitGraph, via: map<CommitId, seq<CommitId>>, root: CommitId) {
    forall x :: x in via ==> IsPath(g, via[x]) && via[x][0] == root && via[x][|via[x]| - 1] == x
  }

  lemma ExtendPath(g: CommitGraph, path: seq<CommitId>, p: CommitId)
    requires Valid(g) && IsPath(g, path) && p in g.parents[path[|path| - 1]]
    ensures IsPath(g, path + [p])
  {
    var q := path + [p];
    forall i | 0 <= i < |q| - 1
      ensures q[i + 1] in g.parents[q[i]]
    {
      if i < |path| - 1 {
        assert q[i] == path[i] && q[i + 1] == path[i + 1];
      }
    }
  }

  /** One step of the walk: queue the parents of `x` not seen before. */
  method PushParents(g: CommitGraph, x: CommitId, seen: set<CommitId>, pending: seq<CommitId>,
                     ghost via: map<CommitId, seq<CommitId>>, ghost root: CommitId)
    returns (seen': set<CommitId>, pending': seq<CommitId>, ghost via': map<CommitId, seq<CommitId>>)
    requires Valid(g) && x in seen && seen <= g.parents.Keys && via.Keys == seen && PathsFrom(g, via, root)
    ensures seen <= seen' <= g.parents.Keys && via'.Keys == seen' && PathsFrom(g, via', root)
    ensures forall p :: p in g.parents[x] ==> p in seen'
    ensures forall q :: q in pending ==> q in pending'
    ensures forall q :: q in pending' ==> q in pending || q in seen'
    ensures forall q :: q in seen' && q !in seen ==> q in pending'
    ensures seen' == seen ==> pending' == pending
    ensures seen' != seen ==> g.parents.Keys - seen' < g.parents.Keys - seen
  {
    var ps := g.parents[x];
    seen', pending', via' := seen, pending, via;
    var j := 0;
    while j < |ps|
      invariant 0 <= j <= |ps|
      invariant seen <= seen' <= g.parents.Keys && via'.Keys == seen' && PathsFrom(g, via', root)
      invariant forall k :: 0 <= k < j ==> ps[k] in seen'
      invariant forall q :: q in pending ==> q in pending'
      invariant forall q :: q in pending' ==> q in pending || q in seen'
      invariant forall q :: q in seen' && q !in seen ==> q in pending'
      invariant seen' == seen ==> pending' == pending
    {
      var p := ps[j];
      if p !in seen' {
        ExtendPath(g, via'[x], p);
        via' := via'[p := via'[x] + [p]];
        seen' := seen' + {p};
        pending' := pending' + [p];
      }
      j := j + 1;
    }
    if seen' != seen {
      var q :| q in seen' && q !in seen;
      assert q in g.parents.Keys - seen && q !in g.parents.Keys - seen';
    }
  }

  /** The walk's bookkeeping: every queued commit has been seen, and every
      seen commit is either queued or done, with all its parents seen. */
  ghost predicate WalkState(g: CommitGraph, seen: set<CommitId>, pending: seq<CommitId>, done: set<CommitId>) {
    && done <= seen
    && (forall q :: q in pending ==> q in seen)
    && (forall q :: q in seen ==> q in done || q in pending)
    && (forall y, p :: y in done && y in g.parents && p in g.parents[y] ==> p in seen)
  }

  /** Visiting the last queued commit `x`: queue its unseen parents and mark
      it done. The walk's measure decreases. */
  method Visit(g: CommitGraph, x: CommitId, seen: set<CommitId>, pending: seq<CommitId>,
               ghost via: map<CommitId, seq<CommitId>>, ghost root: CommitId, ghost done: set<CommitId>)
    returns (seen': set<CommitId>, pending': seq<CommitId>, ghost via': map<CommitId, seq<CommitId>>, ghost done': set<CommitId>)
    requires Valid(g) && seen <= g.parents.Keys && via.Keys == seen && PathsFrom(g, via, root)
    requires WalkState(g, seen, pending + [x], done)
    ensures seen' <= g.parents.Keys && via'.Keys == seen' && PathsFrom(g, via', root)
    ensures WalkState(g, seen', pending', done') && done' == done + {x}
    ensures g.parents.Keys - seen' < g.parents.Keys - seen
      || (g.parents.Keys - seen' == g.parents.Keys - seen && |pending'| < |pending + [x]|)
  {
    assert x in pending + [x];
    seen', pending', via' := PushParents(g, x, seen, pending, via, root);
    done' := done + {x};
    forall q | q in seen'
      ensures q in done' || q in pending'
    {
      if q in seen && q != x {
        assert q in done || q in pending + [x];
        if q !in done {
          assert q in pending;
        }
      }
    }
    forall q | q in pending + [x]
      ensures q == x || q in pending
    {
    }
  }

  /** `is_descendant_of(commit, ancestor)`: false for the same commit;
      otherwise walk every ancestor of `commit` and report whether
      `ancestor` is met. */
  method IsDescendantOf(g: CommitGraph, commit: CommitId, ancestor: CommitId) returns (r: bool)
    requires Valid(g) && commit in g.parents
    ensures r <==> Descends(g, commit, ancestor)
  {
    if commit == ancestor {
      return false;
    }
    var seen: set<CommitId> := {commit};
    var pending: seq<CommitId> := [commit];
    ghost var via: map<CommitId, seq<CommitId>> := map[commit := [commit]];
    ghost var done: set<CommitId> := {};
    while pending != []
      invariant seen <= g.parents.Keys && via.Keys == seen && commit in seen
      invariant PathsFrom(g, via, commit)
      invariant WalkState(g, seen, pending, done) && ancestor !in done
      decreases g.parents.Keys - seen, |pending|
    {
      var x := pending[|pending| - 1];
      ghost var before := pending;
      pending := pending[..|pending| - 1];
      assert before == pending + [x];
      if x == ancestor {
        assert IsPath(g, via[x]);
        return true;
      }
      seen, pending, via, done := Visit(g, x, seen, pending, via, commit, done);
    }
    ClosedExcludes(g, seen, commit, ancestor);
    return false;
  }
}
