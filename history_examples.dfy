/** A small repository that shows how the commit-history strategy as
    written differs from the nearest-ancestor tree its documentation
    describes. It has the branches main, a and b on commits 0, 1 and 2;
    commit 0 is the root commit. */
module HistoryExamples {
  import opened Errors
  import opened BranchTree
  import opened Commits
  import opened Repo
  import opened History

  const Branches: seq<Option<string>> := [Some("main"), Some("a"), Some("b")]
  const Tips: map<string, CommitId> := map["main" := 0, "a" := 1, "b" := 2]

  /** main <- a <- b: each branch one commit ahead of the previous one. */
  const Chain := CommitGraph(map[0 := [], 1 := [0], 2 := [1]], map[0 := 0, 1 := 1, 2 := 2], {})

  function Example(g: CommitGraph): Snapshot {
    Snapshot(g, Branches, Tips, Attached(Some("b")))
  }

  lemma ExampleNames()
    ensures AllUtf8(Branches) && Utf8Names(Branches) == ["main", "a", "b"]
    ensures forall n :: n in Tips <==> Some(n) in Branches
    ensures forall i, j :: 0 <= i < j < |Branches| && Branches[i].Some? ==> Branches[i] != Branches[j]
    ensures "" !in Tips
  {
    assert "main" != "a" && "main" != "b" && "a" != "b" by {
      assert "main"[0] != "a"[0] && "main"[0] != "b"[0] && "a"[0] != "b"[0];
    }
    forall n
      ensures n in Tips <==> Some(n) in Branches
    {
      if Some(n) in Branches {
        var i :| 0 <= i < 3 && Branches[i] == Some(n);
      }
      if n in Tips {
        assert n == "main" || n == "a" || n == "b";
        assert Branches[0] == Some("main") && Branches[1] == Some("a") && Branches[2] == Some("b");
      }
    }
  }

  lemma ExampleValid(g: CommitGraph)
    requires Commits.Valid(g) && 0 in g.parents && 1 in g.parents && 2 in g.parents
    ensures ValidSnapshot(Example(g)) && AllUtf8(Example(g).branches)
    ensures Utf8Names(Example(g).branches) == ["main", "a", "b"]
  {
    ExampleNames();
  }

  lemma ChainDescends()
    ensures Descends(Chain, 1, 0) && Descends(Chain, 2, 1) && Descends(Chain, 2, 0)
  {
    assert IsPath(Chain, [1, 0]);
    assert IsPath(Chain, [2, 1]);
    assert IsPath(Chain, [2, 1, 0]);
  }

  lemma ChainNotDescends()
    ensures !Descends(Chain, 0, 1) && !Descends(Chain, 0, 2) && !Descends(Chain, 1, 2)
  {
    assert Closed(Chain, {0});
    assert Closed(Chain, {0, 1});
    ClosedExcludes(Chain, {0}, 0, 1);
    ClosedExcludes(Chain, {0}, 0, 2);
    ClosedExcludes(Chain, {0, 1}, 1, 2);
  }

  function Keep(keep: bool, c: string): seq<string> {
    if keep then [c] else []
  }

  /** The recorded children among three names, spelled out. */
  lemma RecordedAmongThree(v: Snapshot, names: seq<string>, p: string, rule: EdgeRule)
    requires |names| == 3 && Known(v, names) && p in v.tips
    ensures RecordedChildren(v, names, p, 3, rule)
      == Keep(Recorded(v, names, p, names[0], rule), names[0])
       + Keep(Recorded(v, names, p, names[1], rule), names[1])
       + Keep(Recorded(v, names, p, names[2], rule), names[2])
  {
    assert RecordedChildren(v, names, p, 1, rule) == Keep(Recorded(v, names, p, names[0], rule), names[0]);
    assert RecordedChildren(v, names, p, 2, rule)
      == RecordedChildren(v, names, p, 1, rule) + Keep(Recorded(v, names, p, names[1], rule), names[1]);
  }

  lemma NamesDiffer()
    ensures "main" != "a" && "main" != "b" && "a" != "b"
  {
    assert "main"[0] != "a"[0] && "main"[0] != "b"[0] && "a"[0] != "b"[0];
  }

  /** `expected` lists, under `p`, exactly the children recorded for `p`
      among `names`. */
  ghost predicate Agrees(v: Snapshot, names: seq<string>, rule: EdgeRule, expected: Tree, p: string)
    requires Known(v, names)
  {
    if p in v.tips then
      var cs := RecordedChildren(v, names, p, |names|, rule);
      (p in expected <==> cs != []) && (p in expected ==> expected[p] == cs)
    else
      p !in expected
  }

  /** A tree is the one built under `rule` when its keys and lists agree
      with the recorded children of every branch. */
  lemma BuildTreeIs(v: Snapshot, names: seq<string>, rule: EdgeRule, expected: Tree)
    requires ValidSnapshot(v) && AllUtf8(v.branches) && names == Utf8Names(v.branches)
    requires Known(v, names)
    requires forall p :: Agrees(v, names, rule, expected, p)
    ensures BuildTree(v, rule) == Ok(expected)
  {
    var t := BuildTree(v, rule).value;
    forall p
      ensures p in t <==> p in expected
      ensures p in t ==> t[p] == expected[p]
    {
      TreeShape(v, rule, p);
      assert Agrees(v, names, rule, expected, p);
    }
    assert t == expected;
  }

  const Names := ["main", "a", "b"]

  lemma ChainBetweenMainB()
    ensures Known(Example(Chain), Names)
    ensures Between(Example(Chain), Names, "main", "b")
  {
    ChainDescends();
    NamesDiffer();
    assert Names[1] != "main" && Names[1] != "b";
  }

  /** Nothing lies between neighbours of the chain. */
  lemma ChainNeighboursNotBetween()
    ensures Known(Example(Chain), Names)
    ensures !Between(Example(Chain), Names, "main", "a")
    ensures !Between(Example(Chain), Names, "a", "b")
  {
    ChainNotDescends();
    NamesDiffer();
  }

  /** Each neighbouring pair of the chain is an edge under the intended
      rule only. */
  lemma ChainNeighboursRecorded(rule: EdgeRule)
    ensures Known(Example(Chain), Names)
    ensures Recorded(Example(Chain), Names, "main", "a", rule) <==> rule.Intended?
    ensures Recorded(Example(Chain), Names, "a", "b", rule) <==> rule.Intended?
  {
    ChainDescends();
    ChainNeighboursNotBetween();
    NamesDiffer();
  }

  lemma ChainMainB(rule: EdgeRule)
    ensures Known(Example(Chain), Names)
    ensures Recorded(Example(Chain), Names, "main", "b", rule) <==> rule.AsWritten?
  {
    ChainDescends();
    ChainBetweenMainB();
    NamesDiffer();
  }

  /** In the chain, "main" is listed as `main_children`, "a" as `a_children`
      and "b" has no children. */
  lemma ChainChildrenMain(rule: EdgeRule)
    ensures Known(Example(Chain), Names)
    ensures RecordedChildren(Example(Chain), Names, "main", 3, rule) == if rule.AsWritten? then ["b"] else ["a"]
  {
    ChainNeighboursRecorded(rule);
    ChainMainB(rule);
    RecordedAmongThree(Example(Chain), Names, "main", rule);
  }

  lemma ChainChildrenA(rule: EdgeRule)
    ensures Known(Example(Chain), Names)
    ensures RecordedChildren(Example(Chain), Names, "a", 3, rule) == if rule.AsWritten? then [] else ["b"]
  {
    ChainNotDescends();
    ChainNeighboursRecorded(rule);
    RecordedAmongThree(Example(Chain), Names, "a", rule);
  }

  lemma ChainChildrenB(rule: EdgeRule)
    ensures Known(Example(Chain), Names)
    ensures RecordedChildren(Example(Chain), Names, "b", 3, rule) == []
  {
    ChainNotDescends();
    RecordedAmongThree(Example(Chain), Names, "b", rule);
  }

  lemma ChainAgreesMain(rule: EdgeRule)
    ensures Known(Example(Chain), Names)
    ensures Agrees(Example(Chain), Names, rule, ChainTree(rule), "main")
  {
    ChainChildrenMain(rule);
  }

  lemma ChainAgreesA(rule: EdgeRule)
    ensures Known(Example(Chain), Names)
    ensures Agrees(Example(Chain), Names, rule, ChainTree(rule), "a")
  {
    NamesDiffer();
    ChainChildrenA(rule);
  }

  lemma ChainAgreesB(rule: EdgeRule)
    ensures Known(Example(Chain), Names)
    ensures Agrees(Example(Chain), Names, rule, ChainTree(rule), "b")
  {
    NamesDiffer();
    ChainChildrenB(rule);
  }

  lemma ChainAgrees(rule: EdgeRule, p: string)
    ensures Known(Example(Chain), Names)
    ensures Agrees(Example(Chain), Names, rule, ChainTree(rule), p)
  {
    if p == "main" {
      ChainAgreesMain(rule);
    } else if p == "a" {
      ChainAgreesA(rule);
    } else if p == "b" {
      ChainAgreesB(rule);
    } else {
      assert p !in Tips;
    }
  }

  /** The tree each rule builds for the chain main <- a <- b. */
  function ChainTree(rule: EdgeRule): Tree {
    if rule.AsWritten? then map["main" := ["b"]] else map["main" := ["a"], "a" := ["b"]]
  }

  lemma ChainBuildTree(rule: EdgeRule)
    ensures ValidSnapshot(Example(Chain))
    ensures BuildTree(Example(Chain), rule) == Ok(ChainTree(rule))
  {
    ExampleValid(Chain);
    forall p
      ensures Agrees(Example(Chain), Names, rule, ChainTree(rule), p)
    {
      ChainAgrees(rule, p);
    }
    BuildTreeIs(Example(Chain), Names, rule, ChainTree(rule));
  }

  /** As written, the chain main <- a <- b yields {main: [b]}: b is recorded
      under main because a lies between them, while a is left out because
      nothing lies between main and a. */
  lemma ChainAsWritten()
    ensures ValidSnapshot(Example(Chain))
    ensures HistoryTree(Example(Chain)) == Ok(map["main" := ["b"]])
  {
    ChainBuildTree(AsWritten);
  }

  /** Under the intended rule the same chain yields {main: [a], a: [b]}:
      every branch sits under its nearest ancestor branch. */
  lemma ChainIntended()
    ensures ValidSnapshot(Example(Chain))
    ensures IntendedHistoryTree(Example(Chain)) == Ok(map["main" := ["a"], "a" := ["b"]])
  {
    ChainBuildTree(Intended);
  }

  /** main <- a and main <- b: two branches each one commit ahead of main. */
  const Siblings := CommitGraph(map[0 := [], 1 := [0], 2 := [0]], map[0 := 0, 1 := 1, 2 := 2], {})

  lemma SiblingsDescend()
    ensures Descends(Siblings, 1, 0) && Descends(Siblings, 2, 0)
  {
    assert IsPath(Siblings, [1, 0]);
    assert IsPath(Siblings, [2, 0]);
  }

  /** Nothing descends from a or b. */
  lemma SiblingsLeaves(x: CommitId)
    ensures !Descends(Siblings, x, 1) && !Descends(Siblings, x, 2)
  {
    assert Closed(Siblings, {0});
    assert Closed(Siblings, {0, 1});
    assert Closed(Siblings, {0, 2});
    if x == 0 {
      ClosedExcludes(Siblings, {0}, 0, 1);
      ClosedExcludes(Siblings, {0}, 0, 2);
    } else if x == 1 {
      ClosedExcludes(Siblings, {0, 1}, 1, 2);
    } else if x == 2 {
      ClosedExcludes(Siblings, {0, 2}, 2, 1);
    } else {
      assert Closed(Siblings, {x});
      ClosedExcludes(Siblings, {x}, x, 1);
      ClosedExcludes(Siblings, {x}, x, 2);
    }
  }

  /** No branch lies between two others: the only ancestry runs from a or b
      down to main. */
  lemma SiblingsNothingBetween(p: string, c: string)
    requires p in Tips && c in Tips
    ensures Known(Example(Siblings), Names)
    ensures !Between(Example(Siblings), Names, p, c)
  {
    var v := Example(Siblings);
    forall k | 0 <= k < |Names|
      ensures !(Descends(Siblings, v.tips[Names[k]], v.tips[p]) && Descends(Siblings, v.tips[c], v.tips[Names[k]]))
    {
      SiblingsLeaves(v.tips[c]);
      SiblingsLeaves(v.tips[Names[k]]);
    }
  }

  /** `c` is recorded under `p` only by the intended rule, and only under
      main. */
  lemma SiblingsRecorded(rule: EdgeRule, p: string, c: string)
    requires p in Tips && c in Tips
    ensures Known(Example(Siblings), Names)
    ensures Recorded(Example(Siblings), Names, p, c, rule) <==> rule.Intended? && p == "main" && c != "main"
  {
    var v := Example(Siblings);
    SiblingsNothingBetween(p, c);
    SiblingsDescend();
    SiblingsLeaves(v.tips[c]);
    NamesDiffer();
  }

  /** The part `c` contributes to the child list of `p`. */
  lemma SiblingsKeep(rule: EdgeRule, p: string, c: string)
    requires p in Tips && c in Tips
    ensures Known(Example(Siblings), Names)
    ensures Keep(Recorded(Example(Siblings), Names, p, c, rule), c)
      == if rule.Intended? && p == "main" && c != "main" then [c] else []
  {
    SiblingsRecorded(rule, p, c);
  }

  lemma SiblingsMainAsWritten()
    ensures Known(Example(Siblings), Names)
    ensures RecordedChildren(Example(Siblings), Names, "main", 3, AsWritten) == []
  {
    NamesDiffer();
    SiblingsKeep(AsWritten, "main", "main");
    SiblingsKeep(AsWritten, "main", "a");
    SiblingsKeep(AsWritten, "main", "b");
    RecordedAmongThree(Example(Siblings), Names, "main", AsWritten);
  }

  lemma SiblingsMainIntended()
    ensures Known(Example(Siblings), Names)
    ensures RecordedChildren(Example(Siblings), Names, "main", 3, Intended) == ["a", "b"]
  {
    NamesDiffer();
    SiblingsKeep(Intended, "main", "main");
    SiblingsKeep(Intended, "main", "a");
    SiblingsKeep(Intended, "main", "b");
    RecordedAmongThree(Example(Siblings), Names, "main", Intended);
  }

  lemma SiblingsChildrenOther(rule: EdgeRule, p: string)
    requires p == "a" || p == "b"
    ensures Known(Example(Siblings), Names)
    ensures RecordedChildren(Example(Siblings), Names, p, 3, rule) == []
  {
    NamesDiffer();
    SiblingsKeep(rule, p, "main");
    SiblingsKeep(rule, p, "a");
    SiblingsKeep(rule, p, "b");
    RecordedAmongThree(Example(Siblings), Names, p, rule);
  }

  /** The tree each rule builds for the siblings. */
  function SiblingsTree(rule: EdgeRule): Tree {
    if rule.AsWritten? then map[] else map["main" := ["a", "b"]]
  }

  lemma SiblingsAgree(rule: EdgeRule, p: string)
    ensures Known(Example(Siblings), Names)
    ensures Agrees(Example(Siblings), Names, rule, SiblingsTree(rule), p)
  {
    NamesDiffer();
    if p == "main" {
      if rule.AsWritten? {
        SiblingsMainAsWritten();
      } else {
        SiblingsMainIntended();
      }
    } else if p == "a" || p == "b" {
      SiblingsChildrenOther(rule, p);
    } else {
      assert p !in Tips;
    }
  }

  lemma SiblingsBuildTree(rule: EdgeRule)
    ensures ValidSnapshot(Example(Siblings))
    ensures BuildTree(Example(Siblings), rule) == Ok(SiblingsTree(rule))
  {
    ExampleValid(Siblings);
    forall p
      ensures Agrees(Example(Siblings), Names, rule, SiblingsTree(rule), p)
    {
      SiblingsAgree(rule, p);
    }
    BuildTreeIs(Example(Siblings), Names, rule, SiblingsTree(rule));
  }

  /** As written, two branches started from main give an empty tree: no
      third branch lies between main and either of them. */
  lemma SiblingsAsWritten()
    ensures ValidSnapshot(Example(Siblings))
    ensures HistoryTree(Example(Siblings)) == Ok(map[])
  {
    SiblingsBuildTree(AsWritten);
  }

  /** Under the intended rule both are children of main, in listing order. */
  lemma SiblingsIntended()
    ensures ValidSnapshot(Example(Siblings))
    ensures IntendedHistoryTree(Example(Siblings)) == Ok(map["main" := ["a", "b"]])
  {
    SiblingsBuildTree(Intended);
  }
}
