/** The branch operations of src/git/branch.rs that read or change which
    branches exist and which one is checked out, the dispatch between the
    four relationship strategies, and the parent lookup built on them. */
module Branch {
  import opened Errors
  import opened Strategy
  import opened BranchTree
  import opened Commits
  import opened Repo
  import opened History
  import opened CreationTime
  import opened DefaultRoot
  import opened Settings

  const DetachedMessage := "HEAD is not a branch (detached HEAD state)"
  const NoNameMessage := "Could not get branch name"

  /** The message with which reading HEAD fails when it names a branch
      that has no commit yet (an unborn branch). */
  function UnbornMessage(n: string): string {
    "reference 'refs/heads/" + n + "' not found"
  }

  /** `get_current_branch`: the short name HEAD points at. Reading HEAD
      fails first when its branch is unborn. */
  function CurrentBranch(v: Snapshot): (r: Result<string>)
    ensures r.Ok? <==> v.head.Attached? && v.head.branch.Some? && v.head.branch.value in v.tips
    ensures r.Ok? ==> v.head == Attached(Some(r.value)) && r.value in v.tips
    ensures v.head.Detached? ==> r == Err(Git(DetachedMessage))
    ensures v.head == Attached(None) ==> r == Err(Git(NoNameMessage))
    ensures v.head.Attached? && v.head.branch.Some? && v.head.branch.value !in v.tips ==>
      r == Err(Git(UnbornMessage(v.head.branch.value)))
  {
    match v.head
    case Detached => Err(Git(DetachedMessage))
    case Attached(None) => Err(Git(NoNameMessage))
    case Attached(Some(n)) => if n in v.tips then Ok(n) else Err(Git(UnbornMessage(n)))
  }

  /** The message with which a revision that names nothing is reported. */
  function NotFoundMessage(spec: string): string {
    "revspec '" + spec + "' not found"
  }

  /** `get_branch_commit`: the commit the branch points at. */
  function BranchCommit(v: Snapshot, name: string): (r: Result<CommitId>)
    ensures r.Ok? <==> name in v.tips
    ensures r.Ok? ==> r.value == v.tips[name]
    ensures r.Err? ==> r.error == Git(NotFoundMessage(name))
  {
    if name in v.tips then Ok(v.tips[name]) else Err(Git(NotFoundMessage(name)))
  }

  /** The reference-name rules a new branch name must pass: no empty or
      "@" name, no control character, space or any of ~^:?*[\, no "..",
      "@{" or "//", no component that starts with ".", and no trailing "/",
      "." or ".lock". */
  predicate ValidBranchName(n: string) {
    && n != "" && n != "@"
    && (forall i :: 0 <= i < |n| ==> ' ' < n[i] && n[i] as int != 127 && n[i] !in "~^:?*[\\")
    && (forall i :: 0 <= i < |n| - 1 ==>
          && !(n[i] == '.' && n[i + 1] == '.')
          && !(n[i] == '@' && n[i + 1] == '{')
          && !(n[i] == '/' && n[i + 1] == '/')
          && !(n[i] == '/' && n[i + 1] == '.'))
    && n[0] != '.' && n[0] != '/' && n[|n| - 1] != '/' && n[|n| - 1] != '.'
    && !(|n| >= 5 && n[|n| - 5..] == ".lock")
  }

  function ExistsMessage(name: string): string {
    "Branch '" + name + "' already exists"
  }

  function InvalidNameMessage(name: string): string {
    "the given reference name 'refs/heads/" + name + "' is not valid"
  }

  /** The branch a creation bases the new one on: `parent`, or else the
      current branch. */
  function CreationBase(v: Snapshot, parent: Option<string>): Result<string> {
    if parent.Some? then Ok(parent.value) else CurrentBranch(v)
  }

  /** The checks `create_new_branch` makes before it creates the reference:
      the name is new, the base is known and exists, and the name is valid. */
  predicate CreationAllowed(v: Snapshot, name: string, parent: Option<string>) {
    && name !in v.tips
    && CreationBase(v, parent).Ok? && CreationBase(v, parent).value in v.tips
    && ValidBranchName(name)
  }

  /** `create_new_branch`, as an outcome and the repository after it.
      `refusal` is the answer of `checkout_tree`: `None` when it updates
      the working tree, `Some(message)` when local changes make it refuse.
      The reference is created before that checkout, so a refused checkout
      leaves the new branch behind with HEAD where it was. */
  function CreateBranch(v: Snapshot, name: string, parent: Option<string>, refusal: Option<string>): (Result<()>, Snapshot) {
    if name in v.tips then (Err(Git(ExistsMessage(name))), v)
    else
      var base := CreationBase(v, parent);
      if base.Err? then (Err(base.error), v)
      else if base.value !in v.tips then (Err(BranchNotFound(base.value)), v)
      else if !ValidBranchName(name) then (Err(Git(InvalidNameMessage(name))), v)
      else
        var created := v.(branches := v.branches + [Some(name)], tips := v.tips[name := v.tips[base.value]]);
        if refusal.Some? then (Err(Git(refusal.value)), created)
        else (Ok(()), created.(head := Attached(Some(name))))
  }

  /** `create_new_branch`: create `name` at the tip of `parent` (the current
      branch when absent) and check it out. */
  method CreateNewBranch(repo: Repository, name: string, parent: Option<string>, refusal: Option<string>) returns (r: Result<()>)
    modifies repo
    ensures (r, repo.View()) == CreateBranch(old(repo.View()), name, parent, refusal)
  {
    if name in repo.tips {
      return Err(Git(ExistsMessage(name)));
    }
    var base: string;
    if parent.Some? {
      base := parent.value;
    } else {
      base :- CurrentBranch(repo.View());
    }
    if base !in repo.tips {
      return Err(BranchNotFound(base));
    }
    var commit := repo.tips[base];
    if !ValidBranchName(name) {
      return Err(Git(InvalidNameMessage(name)));
    }
    repo.tips := repo.tips[name := commit];
    repo.branches := repo.branches + [Some(name)];
    if refusal.Some? {
      return Err(Git(refusal.value));
    }
    repo.head := Attached(Some(name));
    return Ok(());
  }

  /** A creation refused by one of the checks changes nothing. Once the
      checks pass, the new branch exists at the tip of its base and the
      other branches keep their tips, whether or not the checkout is
      refused; it becomes the current branch exactly when the checkout
      goes ahead, and only then is the outcome Ok. */
  lemma CreateBranchEffect(v: Snapshot, name: string, parent: Option<string>, refusal: Option<string>)
    ensures var (r, w) := CreateBranch(v, name, parent, refusal);
      && (!CreationAllowed(v, name, parent) ==> r.Err? && w == v)
      && (r.Ok? <==> CreationAllowed(v, name, parent) && refusal.None?)
      && (CreationAllowed(v, name, parent) ==>
            && w.graph == v.graph
            && w.tips.Keys == v.tips.Keys + {name}
            && w.tips[name] == v.tips[CreationBase(v, parent).value]
            && (forall n :: n in v.tips ==> w.tips[n] == v.tips[n]))
      && (CreationAllowed(v, name, parent) && refusal.Some? ==>
            r == Err(Git(refusal.value)) && w.head == v.head)
      && (r.Ok? ==> CurrentBranch(w) == Ok(name))
  {
  }

  /** Adding a new, non-empty branch name at a known commit keeps the
      repository well-formed. */
  lemma AddBranchKeepsValid(v: Snapshot, name: string, c: CommitId)
    requires ValidSnapshot(v) && name !in v.tips && name != "" && c in v.graph.parents
    ensures ValidSnapshot(v.(branches := v.branches + [Some(name)], tips := v.tips[name := c]))
  {
    var w := v.(branches := v.branches + [Some(name)], tips := v.tips[name := c]);
    forall n
      ensures n in w.tips <==> Some(n) in w.branches
    {
      assert Some(n) in w.branches <==> Some(n) in v.branches || n == name;
    }
    forall i, j | 0 <= i < j < |w.branches| && w.branches[i].Some?
      ensures w.branches[i] != w.branches[j]
    {
      if j == |v.branches| {
        assert w.branches[i] == v.branches[i];
        assert w.branches[i].value in v.tips;
      }
    }
  }

  /** Creating a branch keeps the repository well-formed, whether or not the
      checkout afterwards is refused. */
  lemma CreateBranchKeepsValid(v: Snapshot, name: string, parent: Option<string>, refusal: Option<string>)
    requires ValidSnapshot(v)
    ensures ValidSnapshot(CreateBranch(v, name, parent, refusal).1)
  {
    if CreationAllowed(v, name, parent) {
      AddBranchKeepsValid(v, name, v.tips[CreationBase(v, parent).value]);
    }
  }

  /** An unborn HEAD: the current-branch lookup fails, and so does a
      creation based on the current branch, before anything changes. */
  lemma UnbornHeadRefused(g: CommitGraph, name: string, refusal: Option<string>)
    ensures var v := Snapshot(g, [], map[], Attached(Some("main")));
      && CurrentBranch(v) == Err(Git(UnbornMessage("main")))
      && CreateBranch(v, name, None, refusal) == (Err(Git(UnbornMessage("main"))), v)
  {
  }

  /** `checkout_branch`: point HEAD at the branch. `refusal` is the answer
      of `checkout_tree`, as for `CreateBranch`. */
  function Checkout(v: Snapshot, name: string, refusal: Option<string>): (Result<()>, Snapshot) {
    if name !in v.tips then (Err(Git(NotFoundMessage("refs/heads/" + name))), v)
    else if refusal.Some? then (Err(Git(refusal.value)), v)
    else (Ok(()), v.(head := Attached(Some(name))))
  }

  /** `checkout_branch`. */
  method CheckoutBranch(repo: Repository, name: string, refusal: Option<string>) returns (r: Result<()>)
    modifies repo
    ensures (r, repo.View()) == Checkout(old(repo.View()), name, refusal)
  {
    if name !in repo.tips {
      return Err(Git(NotFoundMessage("refs/heads/" + name)));
    }
    if refusal.Some? {
      return Err(Git(refusal.value));
    }
    repo.head := Attached(Some(name));
    return Ok(());
  }

  /** A checkout succeeds exactly when the branch exists and the working
      tree allows it, after which the branch is the current one; a failed
      checkout changes nothing, and in any case nothing but HEAD changes. */
  lemma CheckoutEffect(v: Snapshot, name: string, refusal: Option<string>)
    ensures Checkout(v, name, refusal).0.Ok? <==> name in v.tips && refusal.None?
    ensures Checkout(v, name, refusal).0.Ok? ==> CurrentBranch(Checkout(v, name, refusal).1) == Ok(name)
    ensures Checkout(v, name, refusal).0.Err? ==> Checkout(v, name, refusal).1 == v
    ensures name in v.tips && refusal.Some? ==> Checkout(v, name, refusal).0 == Err(Git(refusal.value))
    ensures Checkout(v, name, refusal).1.(head := v.head) == v
    ensures ValidSnapshot(v) ==> ValidSnapshot(Checkout(v, name, refusal).1)
  {
  }

  /** The tree each strategy builds. */
  ghost function StrategyTree(v: Snapshot, s: BranchRelationStrategy, defaultBase: string, manual: Tree): Result<Tree>
    requires ValidSnapshot(v)
  {
    match s
    case CommitHistory => HistoryTree(v)
    case CreationTime => Ok(CreationTimeTree(v))
    case DefaultRoot => Ok(DefaultRootTree(v, defaultBase))
    case Manual => Ok(manual)
  }

  /** `get_branch_tree`: build the tree with the chosen strategy; the manual
      strategy returns the configured relationships unchanged. */
  method GetBranchTree(repo: Repository, s: BranchRelationStrategy, config: Config) returns (r: Result<Tree>)
    requires repo.Valid()
    ensures r == StrategyTree(repo.View(), s, config.defaultBaseBranch, config.branchRelationships)
  {
    match s
    case CommitHistory =>
      r := GetBranchTreeByHistory(repo);
    case CreationTime =>
      r := GetBranchTreeByCreationTime(repo);
    case DefaultRoot =>
      r := GetBranchTreeWithDefaultRoot(repo, config.defaultBaseBranch);
    case Manual =>
      r := Ok(config.branchRelationships);
  }

  /** A key of `t` whose list holds `c`, if there is one; the map's
      iteration order is not modelled, so any such key may come back. */
  method FindParent(t: Tree, c: string) returns (r: Option<string>)
    ensures r.Some? ==> r.value in t && c in t[r.value]
    ensures r.None? ==> forall p :: p in t ==> c !in t[p]
  {
    var keys := t.Keys;
    while keys != {}
      invariant keys <= t.Keys
      invariant forall p :: p in t && p !in keys ==> c !in t[p]
      decreases keys
    {
      var p :| p in keys;
      if c in t[p] {
        return Some(p);
      }
      keys := keys - {p};
    }
    return None;
  }

  /** The outcomes `get_parent_branch` allows: a parent from the history
      tree if it has one, else one from the creation-time tree, else the
      default base. */
  ghost predicate ParentChoice(v: Snapshot, current: string, defaultBase: string, r: Result<string>)
    requires ValidSnapshot(v)
  {
    var h := HistoryTree(v);
    var t := CreationTimeTree(v);
    if h.Err? then r == Err(h.error)
    else if exists p :: p in h.value && current in h.value[p] then
      r.Ok? && r.value in h.value && current in h.value[r.value]
    else if exists p :: p in t && current in t[p] then
      r.Ok? && r.value in t && current in t[r.value]
    else r == Ok(defaultBase)
  }

  /** `get_parent_branch`. */
  method GetParentBranch(repo: Repository, current: string, defaultBase: string) returns (r: Result<string>)
    requires repo.Valid()
    ensures ParentChoice(repo.View(), current, defaultBase, r)
  {
    var history :- GetBranchTreeByHistory(repo);
    var p := FindParent(history, current);
    if p.Some? {
      return Ok(p.value);
    }
    var byTime := GetBranchTreeByCreationTime(repo);
    p := FindParent(byTime.value, current);
    if p.Some? {
      return Ok(p.value);
    }
    return Ok(defaultBase);
  }

  /** When the history tree gives no parent, the answer from the
      creation-time tree is unique. */
  lemma ParentFromCreationTimeUnique(v: Snapshot, current: string, defaultBase: string, r: Result<string>, r': Result<string>)
    requires ValidSnapshot(v)
    requires HistoryTree(v).Ok? && forall p :: p in HistoryTree(v).value ==> current !in HistoryTree(v).value[p]
    requires ParentChoice(v, current, defaultBase, r) && ParentChoice(v, current, defaultBase, r')
    ensures r == r'
  {
    var t := CreationTimeTree(v);
    if exists p :: p in t && current in t[p] {
      CreationTimeUniqueParent(v, r.value, r'.value, current);
    }
  }
}
