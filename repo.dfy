/** The git repository as the branch operations of src/git/branch.rs see it:
    the local branches in the order libgit2 enumerates them, the tip commit of
    each branch, HEAD, and the commit graph. */
module Repo {
  import opened Errors
  import opened BranchTree
  import opened Commits

  /** HEAD either names a branch (whose short name may not be valid UTF-8,
      `None`) or points straight at a commit. */
  datatype Head = Attached(branch: Option<string>) | Detached

  /** The repository's state as a value. `branches` lists every local branch
      in enumeration order; `None` stands for a name that is not valid UTF-8.
      `tips` maps each valid name to the commit it points at. */
  datatype Snapshot = Snapshot(
    graph: CommitGraph,
    branches: seq<Option<string>>,
    tips: map<string, CommitId>,
    head: Head)

  /** A well-formed repository: the commit graph is closed, every tip is a
      commit of it, the valid names listed are exactly the keys of `tips` and
      each is listed once, and no branch has the empty name. */
  ghost predicate ValidSnapshot(v: Snapshot) {
    && Walkable(v)
    && (forall n :: n in v.tips <==> Some(n) in v.branches)
    && (forall i, j :: 0 <= i < j < |v.branches| && v.branches[i].Some? ==> v.branches[i] != v.branches[j])
    && "" !in v.tips
  }

  /** The part of well-formedness that the ancestry walks need: the graph is
      closed and every tip is one of its commits. */
  predicate Walkable(v: Snapshot) {
    && Commits.Valid(v.graph)
    && (forall n :: n in v.tips ==> v.tips[n] in v.graph.parents)
  }

  predicate AllUtf8(branches: seq<Option<string>>) {
    forall i :: 0 <= i < |branches| ==> branches[i].Some?
  }

  /** The names of the branches, when they are all valid UTF-8. */
  function Utf8Names(branches: seq<Option<string>>): (names: seq<string>)
    requires AllUtf8(branches)
    ensures |names| == |branches|
    ensures forall i :: 0 <= i < |branches| ==> branches[i] == Some(names[i])
  {
    seq(|branches|, i requires 0 <= i < |branches| && AllUtf8(branches) => branches[i].value)
  }

  /** `branch.name()?.unwrap_or("")`. */
  function NameOrEmpty(b: Option<string>): string {
    if b.Some? then b.value else ""
  }

  /** Every name of `names` is a branch. */
  predicate Known(v: Snapshot, names: seq<string>) {
    forall n :: n in names ==> n in v.tips
  }

  /** In a well-formed repository whose names are all valid UTF-8, the names
      are distinct and are exactly the branches. */
  lemma Utf8NamesOfValid(v: Snapshot)
    requires ValidSnapshot(v) && AllUtf8(v.branches)
    ensures Distinct(Utf8Names(v.branches))
    ensures forall n :: n in Utf8Names(v.branches) <==> n in v.tips
  {
    var names := Utf8Names(v.branches);
    forall n | n in v.tips
      ensures n in names
    {
      var i :| 0 <= i < |v.branches| && v.branches[i] == Some(n);
      assert names[i] == n;
    }
  }

  class Repository {
    const graph: CommitGraph
    var branches: seq<Option<string>>
    var tips: map<string, CommitId>
    var head: Head

    constructor (graph: CommitGraph, branches: seq<Option<string>>, tips: map<string, CommitId>, head: Head)
      requires ValidSnapshot(Snapshot(graph, branches, tips, head))
      ensures View() == Snapshot(graph, branches, tips, head)
      ensures Valid()
    {
      this.graph := graph;
      this.branches := branches;
      this.tips := tips;
      this.head := head;
    }

    function View(): Snapshot
      reads this
    {
      Snapshot(graph, branches, tips, head)
    }

    ghost predicate Valid()
      reads this
    {
      ValidSnapshot(View())
    }
  }

  /** `are_branches_related`: one tip descends from the other, or the two
      tips have a merge base. */
  ghost predicate Related(v: Snapshot, a: string, b: string)
    requires a in v.tips && b in v.tips
  {
    || Descends(v.graph, v.tips[a], v.tips[b])
    || Descends(v.graph, v.tips[b], v.tips[a])
    || (v.tips[a], v.tips[b]) in v.graph.mergeBases
  }

  /** Some other branch of `names` lies strictly between `parent` and
      `child`: it descends from `parent` and `child` descends from it. */
  ghost predicate Between(v: Snapshot, names: seq<string>, parent: string, child: string)
    requires Known(v, names) && parent in v.tips && child in v.tips
  {
    exists k :: 0 <= k < |names| && names[k] != parent && names[k] != child
      && Descends(v.graph, v.tips[names[k]], v.tips[parent])
      && Descends(v.graph, v.tips[child], v.tips[names[k]])
  }

  /** `is_direct_parent_child`: true when no other branch lies between. */
  method IsDirectParentChild(repo: Repository, names: seq<string>, parent: string, child: string) returns (r: bool)
    requires Walkable(repo.View()) && Known(repo.View(), names) && parent in repo.tips && child in repo.tips
    ensures r <==> !Between(repo.View(), names, parent, child)
  {
    var v := repo.View();
    for k := 0 to |names|
      invariant forall m :: 0 <= m < k && names[m] != parent && names[m] != child ==>
                  !(Descends(v.graph, v.tips[names[m]], v.tips[parent]) && Descends(v.graph, v.tips[child], v.tips[names[m]]))
    {
      var other := names[k];
      if other != parent && other != child {
        var below := IsDescendantOf(repo.graph, repo.tips[other], repo.tips[parent]);
        if below {
          var above := IsDescendantOf(repo.graph, repo.tips[child], repo.tips[other]);
          if above {
            return false;
          }
        }
      }
    }
    return true;
  }

  /** `are_branches_related`. */
  method AreBranchesRelated(repo: Repository, a: string, b: string) returns (r: bool)
    requires Walkable(repo.View()) && a in repo.tips && b in repo.tips
    ensures r <==> Related(repo.View(), a, b)
  {
    var ab := IsDescendantOf(repo.graph, repo.tips[a], repo.tips[b]);
    if ab {
      return true;
    }
    var ba := IsDescendantOf(repo.graph, repo.tips[b], repo.tips[a]);
    if ba {
      return true;
    }
    return (repo.tips[a], repo.tips[b]) in repo.graph.mergeBases;
  }
}
