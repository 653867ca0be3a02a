/** The `config` command of src/commands/config.rs: the `parent:child`
    argument parser, and the order in which the requested updates reach the
    configuration. Logging is not modelled. */
module ConfigCommand {
  import opened Errors
  import opened Text
  import opened BranchTree
  import opened Cli
  import opened Settings

  const FormatMessage := "Relationship must be in format 'parent:child'"
  const EmptyMessage := "Parent and child branch names cannot be empty"

  /** A relationship argument: split on ':' into exactly two parts, each
      trimmed of white space. */
  function ParseRelationship(relation: string): Result<(string, string)> {
    var parts := Split(relation, ':');
    if |parts| != 2 then Err(Config(FormatMessage)) else Ok((Trim(parts[0]), Trim(parts[1])))
  }

  /** An argument is accepted exactly when it holds a single ':'; both
      halves come back trimmed and without ':'. */
  lemma ParseAcceptsOneColon(relation: string)
    ensures ParseRelationship(relation).Ok? <==> Occurrences(relation, ':') == 1
    ensures ParseRelationship(relation).Err? ==> ParseRelationship(relation).error == Config(FormatMessage)
    ensures var r := ParseRelationship(relation);
      r.Ok? ==> Trimmed(r.value.0) && Trimmed(r.value.1) && ':' !in r.value.0 && ':' !in r.value.1
  {
    SplitCount(relation, ':');
    var parts := Split(relation, ':');
    if |parts| == 2 {
      NoColonAfterTrim(parts[0]);
      NoColonAfterTrim(parts[1]);
    }
  }

  lemma NoColonAfterTrim(s: string)
    requires ':' !in s
    ensures ':' !in Trim(s)
  {
    var t := Trim(s);
    var i := TrimIsInfix(s);
    forall k | 0 <= k < |t|
      ensures t[k] != ':'
    {
      assert t[k] == s[i + k];
    }
  }

  /** What the user writes is what is stored: "p:c", padded or not, parses
      back to the two names. */
  lemma ParsePadded(w1: string, p: string, w2: string, w3: string, c: string, w4: string)
    requires AllWhitespace(w1) && AllWhitespace(w2) && AllWhitespace(w3) && AllWhitespace(w4)
    requires Trimmed(p) && Trimmed(c)
    requires ':' !in w1 + p + w2 && ':' !in w3 + c + w4
    ensures ParseRelationship(w1 + p + w2 + ":" + w3 + c + w4) == Ok((p, c))
  {
    SplitPair(w1 + p + w2, w3 + c + w4, ':');
    assert w1 + p + w2 + ":" + w3 + c + w4 == (w1 + p + w2) + [':'] + (w3 + c + w4);
    TrimPadded(w1, p, w2);
    TrimPadded(w3, c, w4);
  }

  /** The unpadded form "p:c" parses back to the two names. */
  lemma ParseBare(p: string, c: string)
    requires Trimmed(p) && Trimmed(c) && ':' !in p && ':' !in c
    ensures ParseRelationship(p + ":" + c) == Ok((p, c))
  {
    SplitPair(p, c, ':');
    assert p + ":" + c == p + [':'] + c;
    TrimOfTrimmed(p);
    TrimOfTrimmed(c);
  }

  /** "a:b:c" and "ab" are refused. */
  lemma ParseRejectsExamples()
    ensures ParseRelationship("a:b:c") == Err(Config(FormatMessage))
    ensures ParseRelationship("ab") == Err(Config(FormatMessage))
  {
    SplitCount("a:b:c", ':');
    assert multiset("a:b:c")[':'] == 2;
    SplitNone("ab", ':');
  }

  /** The relationship step of an add: the parse, then the emptiness test. */
  function AddStep(d: ConfigData, relation: string): (r: Result<ConfigData>) {
    match ParseRelationship(relation)
    case Err(e) => Err(e)
    case Ok((p, c)) =>
      if p == "" || c == "" then Err(Config(EmptyMessage))
      else Ok(d.(branchRelationships := AddChild(d.branchRelationships, p, c)))
  }

  /** The relationship step of a remove: the parse only; empty names pass. */
  function RemoveStep(d: ConfigData, relation: string): (r: Result<ConfigData>) {
    match ParseRelationship(relation)
    case Err(e) => Err(e)
    case Ok((p, c)) => Ok(d.(branchRelationships := RemoveChild(d.branchRelationships, p, c)))
  }

  /** The outcome of `handle_config` and the configuration it leaves: the
      default base, then the strategy, then the add, then the remove; an
      error stops the sequence with the earlier updates already made. */
  function ApplyConfig(d: ConfigData, base: Option<string>, strategy: Option<BranchDetectionStrategy>,
                       add: Option<string>, remove: Option<string>): (Result<()>, ConfigData)
  {
    var d1 := if base.Some? then d.(defaultBaseBranch := base.value) else d;
    var d2 := if strategy.Some? then d1.(branchDetectionStrategy := ToRelationStrategy(strategy.value)) else d1;
    var d3 := if add.Some? then AddStep(d2, add.value) else Ok(d2);
    if d3.Err? then (Err(d3.error), d2)
    else
      var d4 := if remove.Some? then RemoveStep(d3.value, remove.value) else Ok(d3.value);
      if d4.Err? then (Err(d4.error), d3.value) else (Ok(()), d4.value)
  }

  /** `handle_config` on the loaded configuration; every setter saves it. */
  method HandleConfig(config: Config, base: Option<string>, strategy: Option<BranchDetectionStrategy>,
                      add: Option<string>, remove: Option<string>) returns (r: Result<()>)
    requires config.saved == config.Data()
    modifies config
    ensures (r, config.Data()) == ApplyConfig(old(config.Data()), base, strategy, add, remove)
    ensures config.saved == config.Data()
    ensures base.None? && strategy.None? && add.None? && remove.None? ==> unchanged(config)
  {
    if base.Some? {
      config.SetDefaultBaseBranch(base.value);
    }
    if strategy.Some? {
      config.SetBranchDetectionStrategy(ToRelationStrategy(strategy.value));
    }
    if add.Some? {
      var parsed := ParseRelationship(add.value);
      if parsed.Err? {
        return Err(parsed.error);
      }
      var (parent, child) := parsed.value;
      if parent == "" || child == "" {
        return Err(Config(EmptyMessage));
      }
      config.AddBranchRelationship(parent, child);
    }
    if remove.Some? {
      var parsed := ParseRelationship(remove.value);
      if parsed.Err? {
        return Err(parsed.error);
      }
      var (parent, child) := parsed.value;
      config.RemoveBranchRelationship(parent, child);
    }
    return Ok(());
  }

  /** With no option the configuration is left as it was. */
  lemma NoOptionsNoChange(d: ConfigData)
    ensures ApplyConfig(d, None, None, None, None) == (Ok(()), d)
  {
  }

  /** A malformed add fails after the base and the strategy were stored, and
      leaves the relationships alone. */
  lemma AddErrorKeepsEarlierUpdates(d: ConfigData, base: string, strategy: BranchDetectionStrategy,
                                    add: string, remove: Option<string>)
    requires Occurrences(add, ':') != 1
    ensures ApplyConfig(d, Some(base), Some(strategy), Some(add), remove)
      == (Err(Config(FormatMessage)),
          d.(defaultBaseBranch := base, branchDetectionStrategy := ToRelationStrategy(strategy)))
  {
    ParseAcceptsOneColon(add);
  }

  /** An add whose parent or child is empty once trimmed is refused, with
      nothing changed; the same argument is accepted as a remove, which does
      not test for emptiness. */
  lemma EmptyNamesOnlyRefusedByAdd(d: ConfigData, relation: string, p: string, c: string)
    requires ParseRelationship(relation) == Ok((p, c)) && (p == "" || c == "")
    ensures ApplyConfig(d, None, None, Some(relation), None) == (Err(Config(EmptyMessage)), d)
    ensures ApplyConfig(d, None, None, None, Some(relation))
      == (Ok(()), d.(branchRelationships := RemoveChild(d.branchRelationships, p, c)))
  {
    assert AddStep(d, relation) == Err(Config(EmptyMessage));
    assert RemoveStep(d, relation) == Ok(d.(branchRelationships := RemoveChild(d.branchRelationships, p, c)));
  }

  /** ":b": refused by add, accepted by remove. */
  lemma EmptyParentExample(d: ConfigData)
    ensures ApplyConfig(d, None, None, Some(":b"), None) == (Err(Config(EmptyMessage)), d)
    ensures ApplyConfig(d, None, None, None, Some(":b"))
      == (Ok(()), d.(branchRelationships := RemoveChild(d.branchRelationships, "", "b")))
  {
    ParseEmptyParent();
    EmptyNamesOnlyRefusedByAdd(d, ":b", "", "b");
  }

  lemma ParseEmptyParent()
    ensures ParseRelationship(":b") == Ok(("", "b"))
  {
    ParseBare("", "b");
    assert "" + ":" + "b" == ":b";
  }

  /** Adding and removing the same new relationship in one command leaves
      the relationships as they were: the add runs first. */
  lemma AddThenRemoveSameRestores(d: ConfigData, p: string, c: string)
    requires p != "" && c != "" && Trimmed(p) && Trimmed(c) && ':' !in p && ':' !in c
    requires p in d.branchRelationships ==> d.branchRelationships[p] != [] && c !in d.branchRelationships[p]
    ensures ApplyConfig(d, None, None, Some(p + ":" + c), Some(p + ":" + c)) == (Ok(()), d)
  {
    var added := d.(branchRelationships := AddChild(d.branchRelationships, p, c));
    AddStepBare(d, p, c);
    RemoveStepBare(added, p, c);
    AddThenRemove(d.branchRelationships, p, c);
    assert added.(branchRelationships := RemoveChild(added.branchRelationships, p, c)) == d;
  }

  lemma AddStepBare(d: ConfigData, p: string, c: string)
    requires p != "" && c != "" && Trimmed(p) && Trimmed(c) && ':' !in p && ':' !in c
    ensures AddStep(d, p + ":" + c) == Ok(d.(branchRelationships := AddChild(d.branchRelationships, p, c)))
  {
    ParseBare(p, c);
  }

  lemma RemoveStepBare(d: ConfigData, p: string, c: string)
    requires Trimmed(p) && Trimmed(c) && ':' !in p && ':' !in c
    ensures RemoveStep(d, p + ":" + c) == Ok(d.(branchRelationships := RemoveChild(d.branchRelationships, p, c)))
  {
    ParseBare(p, c);
  }
}
