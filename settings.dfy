/** The persisted configuration of src/configuration/settings.rs: tracked pull
    requests, the default base branch, the manual relationships and the
    detection strategy, with the in-place edits the commands perform. Writing
    the file is modelled by the ghost field `saved`, which every edit brings
    up to date with the in-memory value. */
module Settings {
  import opened Strategy
  import opened BranchTree
  import opened Errors

  type U64 = x: int | 0 <= x < 0x1_0000_0000_0000_0000

  /** `PrInfo`: what the tool remembers about a branch's pull request. */
  datatype PrInfo = PrInfo(url: string, number: U64, title: string, createdAt: string)

  /** The serialisable content of a `Config`. */
  datatype ConfigData = ConfigData(
    prs: map<string, PrInfo>,
    defaultBaseBranch: string,
    branchRelationships: Tree,
    branchDetectionStrategy: BranchRelationStrategy)

  class Config {
    var prs: map<string, PrInfo>
    var defaultBaseBranch: string
    var branchRelationships: Tree
    var branchDetectionStrategy: BranchRelationStrategy
    /** The content of the configuration file after the last `save`. */
    ghost var saved: ConfigData

    function Data(): ConfigData
      reads this
    {
      ConfigData(prs, defaultBaseBranch, branchRelationships, branchDetectionStrategy)
    }

    /** The configuration `load` creates, and saves, when no file exists. */
    constructor Default()
      ensures prs == map[] && defaultBaseBranch == "main" && branchRelationships == map[]
      ensures branchDetectionStrategy == CommitHistory
      ensures saved == Data()
    {
      prs := map[];
      defaultBaseBranch := "main";
      branchRelationships := map[];
      branchDetectionStrategy := DefaultStrategy();
      saved := ConfigData(map[], "main", map[], DefaultStrategy());
    }

    /** The configuration `load` reads back from an existing file. */
    constructor Loaded(d: ConfigData)
      ensures Data() == d && saved == d
    {
      prs := d.prs;
      defaultBaseBranch := d.defaultBaseBranch;
      branchRelationships := d.branchRelationships;
      branchDetectionStrategy := d.branchDetectionStrategy;
      saved := d;
    }

    /** `save`: the file now holds the in-memory configuration. */
    method Save()
      modifies this`saved
      ensures saved == Data()
    {
      saved := Data();
    }

    /** `add_pr`: insert or overwrite the entry of `branch`. */
    method AddPr(branch: string, info: PrInfo)
      modifies this
      ensures prs == old(prs)[branch := info]
      ensures GetPr(branch) == Some(info)
      ensures forall b :: b != branch ==> GetPr(b) == old(GetPr(b))
      ensures defaultBaseBranch == old(defaultBaseBranch) && branchRelationships == old(branchRelationships)
      ensures branchDetectionStrategy == old(branchDetectionStrategy)
      ensures saved == Data()
    {
      prs := prs[branch := info];
      Save();
    }

    /** `get_pr`. */
    function GetPr(branch: string): (r: Option<PrInfo>)
      reads this
      ensures r.Some? <==> branch in prs
      ensures r.Some? ==> r.value == prs[branch]
    {
      if branch in prs then Some(prs[branch]) else None
    }

    /** `set_default_base_branch`: replaces that field only. */
    method SetDefaultBaseBranch(branch: string)
      modifies this
      ensures Data() == old(Data()).(defaultBaseBranch := branch)
      ensures saved == Data()
    {
      defaultBaseBranch := branch;
      Save();
    }

    /** `set_branch_detection_strategy`: replaces that field only. */
    method SetBranchDetectionStrategy(strategy: BranchRelationStrategy)
      modifies this
      ensures Data() == old(Data()).(branchDetectionStrategy := strategy)
      ensures saved == Data()
    {
      branchDetectionStrategy := strategy;
      Save();
    }

    /** `add_branch_relationship`: append `child` to the list of `parent`,
        creating it if absent; duplicates are kept. */
    method AddBranchRelationship(parent: string, child: string)
      modifies this
      ensures Data() == old(Data()).(branchRelationships := AddChild(old(branchRelationships), parent, child))
      ensures saved == Data()
    {
      var children := if parent in branchRelationships then branchRelationships[parent] else [];
      branchRelationships := branchRelationships[parent := children + [child]];
      Save();
    }

    /** `remove_branch_relationship`: drop every occurrence of `child` from the
        list of `parent` and the key itself if nothing is left. */
    method RemoveBranchRelationship(parent: string, child: string)
      modifies this
      ensures Data() == old(Data()).(branchRelationships := RemoveChild(old(branchRelationships), parent, child))
      ensures saved == Data()
    {
      if parent in branchRelationships {
        var children := Without(branchRelationships[parent], child);
        branchRelationships := branchRelationships[parent := children];
        if children == [] {
          branchRelationships := branchRelationships - {parent};
        }
      }
      Save();
    }
  }
}
