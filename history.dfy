/** The commit-history strategy of src/git/branch.rs
    (`get_branch_tree_by_history`). Every ordered pair of distinct branches
    is examined, parents in the outer loop and candidate children in the
    inner loop, both in enumeration order. The code records `child` under
    `parent` when the child's tip strictly descends from the parent's and
    `is_direct_parent_child` answers false, that is when some third branch
    lies between the two: the opposite of what that helper's documentation
    intends. The builder is modelled as written; `Intended` names the rule the
    documentation describes, and the lemmas at the end set the two side by
    side. */
module History {
  import opened Errors
  import opened BranchTree
  import opened Commits
  import opened Repo

  const InvalidUtf8Message := "Invalid UTF-8 in branch name"

  /** Which test on `is_direct_parent_child` the builder applies. */
  datatype EdgeRule = AsWritten | Intended

  /** `child` is recorded under `parent`: a strict descendant, with a branch
      in between (as written) or with none (as intended). */
  ghost predicate Recorded(v: Snapshot, names: seq<string>, parent: string, child: string, rule: EdgeRule)
    requires Known(v, names) && parent in v.tips && child in v.tips
  {
    && parent != child
    && Descends(v.graph, v.tips[child], v.tips[parent])
    && (if rule.AsWritten? then Between(v, names, parent, child) else !Between(v, names, parent, child))
  }

  /** The children recorded under `parent` while the inner loop has looked at
      the first `j` names, in enumeration order. */
  ghost function RecordedChildren(v: Snapshot, names: seq<string>, parent: string, j: nat, rule: EdgeRule): (r: seq<string>)
    requires j <= |names| && Known(v, names) && parent in v.tips
    ensures forall c :: c in r <==> c in names[..j] && Recorded(v, names, parent, c, rule)
  {
    if j == 0 then []
    else
      assert names[..j] == names[..j - 1] + [names[j - 1]];
      RecordedChildren(v, names, parent, j - 1, rule)
        + (if Recorded(v, names, parent, names[j - 1], rule) then [names[j - 1]] else [])
  }

  /** The edges from `p` to each of `cs`, in order. */
  function Pairs(p: string, cs: seq<string>): (r: seq<Edge>)
    ensures |r| == |cs|
    ensures forall k :: 0 <= k < |cs| ==> r[k] == (p, cs[k])
  {
    seq(|cs|, k requires 0 <= k < |cs| => (p, cs[k]))
  }

  /** The edges pushed once the outer loop has handled the first `i` names. */
  ghost function RecordedEdges(v: Snapshot, names: seq<string>, i: nat, rule: EdgeRule): seq<Edge>
    requires i <= |names| && Known(v, names)
  {
    if i == 0 then []
    else RecordedEdges(v, names, i - 1, rule) + Pairs(names[i - 1], RecordedChildren(v, names, names[i - 1], |names|, rule))
  }

  /** The tree built under `rule`; a branch name that is not valid UTF-8 fails
      the whole call. */
  ghost function BuildTree(v: Snapshot, rule: EdgeRule): Result<Tree>
    requires ValidSnapshot(v)
  {
    if !AllUtf8(v.branches) then Err(Git(InvalidUtf8Message))
    else
      var names := Utf8Names(v.branches);
      Utf8NamesOfValid(v);
      Ok(EdgesToTree(RecordedEdges(v, names, |names|, rule)))
  }

  /** What `get_branch_tree_by_history` returns. */
  ghost function HistoryTree(v: Snapshot): Result<Tree>
    requires ValidSnapshot(v)
  {
    BuildTree(v, AsWritten)
  }

  /** The tree the documentation of `is_direct_parent_child` describes: each
      branch under its nearest ancestor branches. */
  ghost function IntendedHistoryTree(v: Snapshot): Result<Tree>
    requires ValidSnapshot(v)
  {
    BuildTree(v, Intended)
  }

  lemma PushEdge(edges: seq<Edge>, p: string, c: string)
    ensures EdgesToTree(edges + [(p, c)]) == AddChild(EdgesToTree(edges), p, c)
  {
    assert (edges + [(p, c)])[..|edges|] == edges;
  }

  lemma PairsAppend(p: string, cs: seq<string>, c: string)
    ensures Pairs(p, cs + [c]) == Pairs(p, cs) + [(p, c)]
  {
  }

  /** The first pass of `get_branch_tree_by_history`: every branch name, or
      the error for the first one that is not valid UTF-8. */
  method CollectNames(repo: Repository) returns (r: Result<seq<string>>)
    ensures AllUtf8(repo.branches) ==> r == Ok(Utf8Names(repo.branches))
    ensures !AllUtf8(repo.branches) ==> r == Err(Git(InvalidUtf8Message))
  {
    var names: seq<string> := [];
    for i := 0 to |repo.branches|
      invariant AllUtf8(repo.branches[..i]) && names == Utf8Names(repo.branches[..i])
    {
      match repo.branches[i] {
        case None =>
          return Err(Git(InvalidUtf8Message));
        case Some(n) =>
          names := names + [n];
      }
    }
    assert repo.branches[..|repo.branches|] == repo.branches;
    return Ok(names);
  }

  /** Looking at one more candidate child pushes it exactly when it is
      recorded. */
  lemma PushStep(v: Snapshot, names: seq<string>, parent: string, j: nat, done: seq<Edge>, rule: EdgeRule)
    requires j < |names| && Known(v, names) && parent in v.tips
    ensures EdgesToTree(done + Pairs(parent, RecordedChildren(v, names, parent, j + 1, rule)))
      == if Recorded(v, names, parent, names[j], rule)
         then AddChild(EdgesToTree(done + Pairs(parent, RecordedChildren(v, names, parent, j, rule))), parent, names[j])
         else EdgesToTree(done + Pairs(parent, RecordedChildren(v, names, parent, j, rule)))
  {
    var cs := RecordedChildren(v, names, parent, j, rule);
    if Recorded(v, names, parent, names[j], rule) {
      PairsAppend(parent, cs, names[j]);
      assert done + Pairs(parent, cs + [names[j]]) == (done + Pairs(parent, cs)) + [(parent, names[j])];
      PushEdge(done + Pairs(parent, cs), parent, names[j]);
    } else {
      assert cs + [] == cs;
    }
  }

  /** One round of the outer loop: push every child recorded under `parent`
      onto the tree built so far. */
  method PushChildren(repo: Repository, names: seq<string>, parent: string, tree: Tree, ghost done: seq<Edge>)
    returns (tree': Tree)
    requires Walkable(repo.View()) && Known(repo.View(), names) && parent in repo.tips
    requires tree == EdgesToTree(done)
    ensures tree' == EdgesToTree(done + Pairs(parent, RecordedChildren(repo.View(), names, parent, |names|, AsWritten)))
  {
    ghost var v := repo.View();
    tree' := tree;
    assert done + Pairs(parent, RecordedChildren(v, names, parent, 0, AsWritten)) == done;
    for j := 0 to |names|
      invariant tree' == EdgesToTree(done + Pairs(parent, RecordedChildren(v, names, parent, j, AsWritten)))
    {
      var other := names[j];
      PushStep(v, names, parent, j, done, AsWritten);
      if parent == other {
        continue;
      }
      var below := IsDescendantOf(repo.graph, repo.tips[other], repo.tips[parent]);
      if below {
        var direct := IsDirectParentChild(repo, names, parent, other);
        if !direct {
          tree' := AddChild(tree', parent, other);
        }
      }
    }
  }

  /** The second pass of `get_branch_tree_by_history`: each name in turn as
      the parent. */
  method PushAllChildren(repo: Repository, names: seq<string>) returns (tree: Tree)
    requires Walkable(repo.View()) && Known(repo.View(), names)
    ensures tree == EdgesToTree(RecordedEdges(repo.View(), names, |names|, AsWritten))
  {
    ghost var v := repo.View();
    tree := map[];
    for i := 0 to |names|
      invariant tree == EdgesToTree(RecordedEdges(v, names, i, AsWritten))
    {
      tree := PushChildren(repo, names, names[i], tree, RecordedEdges(v, names, i, AsWritten));
    }
  }

  /** `get_branch_tree_by_history`. */
  method GetBranchTreeByHistory(repo: Repository) returns (r: Result<Tree>)
    requires repo.Valid()
    ensures r == HistoryTree(repo.View())
  {
    var names :- CollectNames(repo);
    Utf8NamesOfValid(repo.View());
    var tree := PushAllChildren(repo, names);
    return Ok(tree);
  }

  lemma {:induction false} ChildListPairs(a: string, cs: seq<string>, p: string)
    ensures ChildList(Pairs(a, cs), p) == if a == p then cs else []
    decreases |cs|
  {
    if cs != [] {
      var init := cs[..|cs| - 1];
      assert cs == init + [cs[|cs| - 1]];
      PairsAppend(a, init, cs[|cs| - 1]);
      ChildListPairs(a, init, p);
      ChildListAppend(Pairs(a, init), [(a, cs[|cs| - 1])], p);
    }
  }

  lemma {:induction false} ChildListRecorded(v: Snapshot, names: seq<string>, i: nat, p: string, rule: EdgeRule)
    requires i <= |names| && Known(v, names) && Distinct(names)
    ensures ChildList(RecordedEdges(v, names, i, rule), p)
      == if p in names[..i] then RecordedChildren(v, names, p, |names|, rule) else []
  {
    if i > 0 {
      var a := names[i - 1];
      assert p in names[..i] <==> p in names[..i - 1] || p == a by {
        assert names[..i] == names[..i - 1] + [a];
      }
      if p == a {
        assert p !in names[..i - 1];
      }
      ChildListRecorded(v, names, i - 1, p, rule);
      ChildListAppend(RecordedEdges(v, names, i - 1, rule), Pairs(a, RecordedChildren(v, names, a, |names|, rule)), p);
      ChildListPairs(a, RecordedChildren(v, names, a, |names|, rule), p);
    }
  }

  /** `p` is a key of the tree exactly when some child is recorded under it,
      and then it lists those children in branch-enumeration order. */
  lemma TreeShape(v: Snapshot, rule: EdgeRule, p: string)
    requires ValidSnapshot(v) && AllUtf8(v.branches)
    ensures Known(v, Utf8Names(v.branches)) && BuildTree(v, rule).Ok?
    ensures p in BuildTree(v, rule).value <==>
      p in v.tips && RecordedChildren(v, Utf8Names(v.branches), p, |v.branches|, rule) != []
    ensures p in BuildTree(v, rule).value ==>
      BuildTree(v, rule).value[p] == RecordedChildren(v, Utf8Names(v.branches), p, |v.branches|, rule)
  {
    var names := Utf8Names(v.branches);
    assert names[..|names|] == names;
    Utf8NamesOfValid(v);
    ChildListRecorded(v, names, |names|, p, rule);
    EdgesToTreeGroups(RecordedEdges(v, names, |names|, rule));
  }

  /** Read back from the tree, `c` is listed under `p` exactly when `c` is
      recorded under `p`. */
  lemma BuildTreeEdge(v: Snapshot, rule: EdgeRule, p: string, c: string)
    requires ValidSnapshot(v) && AllUtf8(v.branches)
    ensures Known(v, Utf8Names(v.branches)) && BuildTree(v, rule).Ok?
    ensures c in ChildrenOf(BuildTree(v, rule).value, p) <==>
      p in v.tips && c in v.tips && Recorded(v, Utf8Names(v.branches), p, c, rule)
  {
    TreeShape(v, rule, p);
    var names := Utf8Names(v.branches);
    assert names[..|names|] == names;
    if p in v.tips {
      var cs := RecordedChildren(v, names, p, |names|, rule);
      assert c in cs <==> c in names && Recorded(v, names, p, c, rule);
    }
  }

  /** History edges as written: `c` is listed under `p` exactly when both are
      branches, `c`'s tip strictly descends from `p`'s, and some third branch
      lies between them. Hence no branch is its own child, and every child's
      tip descends from its parent's. */
  lemma HistoryTreeEdges(v: Snapshot)
    requires ValidSnapshot(v) && AllUtf8(v.branches)
    ensures HistoryTree(v).Ok?
    ensures forall p, c :: c in ChildrenOf(HistoryTree(v).value, p) <==>
      && p in v.tips && c in v.tips && p != c
      && Descends(v.graph, v.tips[c], v.tips[p])
      && Between(v, Utf8Names(v.branches), p, c)
    ensures forall p :: p !in ChildrenOf(HistoryTree(v).value, p)
  {
    BuildTreeEdge(v, AsWritten, "", "");
    forall p, c
      ensures c in ChildrenOf(HistoryTree(v).value, p) <==>
        && p in v.tips && c in v.tips && p != c
        && Descends(v.graph, v.tips[c], v.tips[p])
        && Between(v, Utf8Names(v.branches), p, c)
    {
      BuildTreeEdge(v, AsWritten, p, c);
    }
    forall p
      ensures p !in ChildrenOf(HistoryTree(v).value, p)
    {
      BuildTreeEdge(v, AsWritten, p, p);
    }
  }

  /** The intended edges: `c` under `p` exactly when `c`'s tip strictly
      descends from `p`'s and no other branch lies between them. */
  lemma IntendedHistoryTreeEdges(v: Snapshot)
    requires ValidSnapshot(v) && AllUtf8(v.branches)
    ensures IntendedHistoryTree(v).Ok?
    ensures forall p, c :: c in ChildrenOf(IntendedHistoryTree(v).value, p) <==>
      && p in v.tips && c in v.tips && p != c
      && Descends(v.graph, v.tips[c], v.tips[p])
      && !Between(v, Utf8Names(v.branches), p, c)
  {
    BuildTreeEdge(v, Intended, "", "");
    forall p, c
      ensures c in ChildrenOf(IntendedHistoryTree(v).value, p) <==>
        && p in v.tips && c in v.tips && p != c
        && Descends(v.graph, v.tips[c], v.tips[p])
        && !Between(v, Utf8Names(v.branches), p, c)
    {
      BuildTreeEdge(v, Intended, p, c);
    }
  }
}
