/** The default-root strategy of src/git/branch.rs
    (`get_branch_tree_with_default_root`): every listed branch other than the
    default one becomes a child of the default branch. */
module DefaultRoot {
  import opened Errors
  import opened BranchTree
  import opened Repo

  /** The names of `bs` in listing order; a name that is not valid UTF-8
      reads as "". */
  function AllNames(bs: seq<Option<string>>): (r: seq<string>)
    ensures |r| == |bs|
    ensures forall i :: 0 <= i < |bs| ==> r[i] == NameOrEmpty(bs[i])
  {
    if bs == [] then [] else AllNames(bs[..|bs| - 1]) + [NameOrEmpty(bs[|bs| - 1])]
  }

  /** The tree the strategy builds: empty when `d` is not a branch or when
      no other branch is listed, otherwise `d` mapped to the other names. */
  function DefaultRootTree(v: Snapshot, d: string): Tree {
    if d !in v.tips then map[]
    else
      var others := Without(AllNames(v.branches), d);
      if others == [] then map[] else map[d := others]
  }

  /** `get_branch_tree_with_default_root`. */
  method GetBranchTreeWithDefaultRoot(repo: Repository, d: string) returns (r: Result<Tree>)
    ensures r == Ok(DefaultRootTree(repo.View(), d))
  {
    var tree: Tree := map[];
    if d !in repo.tips {
      return Ok(tree);
    }
    var others: seq<string> := [];
    for k := 0 to |repo.branches|
      invariant others == Without(AllNames(repo.branches[..k]), d)
    {
      var name := NameOrEmpty(repo.branches[k]);
      assert repo.branches[..k + 1][..k] == repo.branches[..k];
      WithoutAppend(AllNames(repo.branches[..k]), name, d);
      if name != d {
        others := others + [name];
      }
    }
    assert repo.branches[..|repo.branches|] == repo.branches;
    if |others| != 0 {
      tree := tree[d := others];
    }
    return Ok(tree);
  }

  /** The default branch is the only possible key, and it is a key exactly
      when it is a branch and some other name is listed. */
  lemma DefaultRootKeys(v: Snapshot, d: string)
    ensures forall p :: p in DefaultRootTree(v, d) ==> p == d
    ensures d in DefaultRootTree(v, d) <==>
      d in v.tips && exists i :: 0 <= i < |v.branches| && NameOrEmpty(v.branches[i]) != d
  {
    var names := AllNames(v.branches);
    WithoutEmpty(names, d);
    if exists i :: 0 <= i < |v.branches| && NameOrEmpty(v.branches[i]) != d {
      var i :| 0 <= i < |v.branches| && NameOrEmpty(v.branches[i]) != d;
      assert names[i] in names;
    } else {
      forall x | x in names
        ensures x == d
      {
        var i :| 0 <= i < |names| && names[i] == x;
      }
    }
  }

  /** Nothing is left exactly when every element is the one removed. */
  lemma {:induction false} WithoutEmpty(s: seq<string>, c: string)
    ensures Without(s, c) == [] <==> forall x :: x in s ==> x == c
  {
    if s != [] {
      var rest := s[1..];
      WithoutEmpty(rest, c);
      assert Without(s, c) == (if s[0] == c then [] else [s[0]]) + Without(rest, c);
      assert forall x :: x in s <==> x == s[0] || x in rest;
      assert s[0] in s;
    }
  }

  /** The list of the default branch holds every other listed name as often
      as it is listed, in listing order, and never the default branch. */
  lemma DefaultRootChildren(v: Snapshot, d: string)
    requires d in DefaultRootTree(v, d)
    ensures d !in DefaultRootTree(v, d)[d]
    ensures IsSubsequence(DefaultRootTree(v, d)[d], AllNames(v.branches))
    ensures forall x :: x != d ==> multiset(DefaultRootTree(v, d)[d])[x] == multiset(AllNames(v.branches))[x]
  {
    assert DefaultRootTree(v, d)[d] == Without(AllNames(v.branches), d);
  }

  /** In a well-formed repository every other branch is a child of the
      default branch, and the default branch is the only root. */
  lemma DefaultRootCoversBranches(v: Snapshot, d: string, n: string)
    requires ValidSnapshot(v) && d in v.tips && n in v.tips && n != d
    ensures d in DefaultRootTree(v, d) && n in DefaultRootTree(v, d)[d]
    ensures d !in AllChildren(DefaultRootTree(v, d))
  {
    var i :| 0 <= i < |v.branches| && v.branches[i] == Some(n);
    var names := AllNames(v.branches);
    assert names[i] == n;
    DefaultRootKeys(v, d);
    DefaultRootChildren(v, d);
    assert n in multiset(names);
    assert n in multiset(DefaultRootTree(v, d)[d]);
  }
}
