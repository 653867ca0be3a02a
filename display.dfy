/** The console text of src/utils/display.rs: the decision a yes/no prompt
    takes from the line the user typed, the decorations of a branch name and
    a pull-request link, and the lines `print_branch_hierarchy` prints, which
    the model returns instead of printing. Colours are not modelled. */
module Display {
  import opened Text

  /** The decision of `prompt_confirmation` on the line read: "y" in either
      case, whatever whitespace surrounds it. */
  predicate Confirmed(input: string) {
    ToLower(Trim(input)) == "y"
  }

  /** Only a lone "y" or "Y", possibly padded, confirms. */
  lemma ConfirmedExactly(input: string)
    ensures Confirmed(input) <==> Trim(input) == "y" || Trim(input) == "Y"
  {
    var t := Trim(input);
    if |t| == 1 {
      LowerY(t[0]);
      assert ToLower(t) == [LowerChar(t[0])];
      assert t == [t[0]];
    } else {
      assert |ToLower(t)| != |"y"|;
    }
  }

  lemma LowerY(c: char)
    ensures LowerChar(c) == 'y' <==> c == 'y' || c == 'Y'
  {
  }

  /** A padded capital "Y" is accepted. */
  lemma ConfirmedPaddedCapital()
    ensures Confirmed(" Y\n")
  {
    TrimPadded(" ", "Y", "\n");
    assert " " + "Y" + "\n" == " Y\n";
    assert ToLower("Y") == [LowerChar('Y')];
  }

  /** "yes" is not a confirmation. */
  lemma NotConfirmedYes()
    ensures !Confirmed("yes")
  {
    TrimPadded("", "yes", "");
    assert "" + "yes" + "" == "yes";
  }

  /** The empty line that end of input leaves is not a confirmation. */
  lemma NotConfirmedAtEnd()
    ensures !Confirmed("")
  {
  }

  /** `format_branch_name`: the current branch is marked with "* ", every
      other one indented by two spaces. */
  function FormatBranchName(name: string, isCurrent: bool): (r: string)
    ensures |r| == |name| + 2 && r[2..] == name
    ensures r[0] == '*' <==> isCurrent
    ensures r[1] == ' '
  {
    if isCurrent then "* " + name else "  " + name
  }

  /** `format_pr_link`: " [PR #<number>](<url>)". */
  function FormatPrLink(number: nat, url: string): string {
    " [PR #" + NatToString(number) + "](" + url + ")"
  }

  /** The link can be read back: the decimal digits of the number start at
      position 6 and are closed by "](", and the url runs from there to the
      final ")". */
  lemma PrLinkReadsBack(number: nat, url: string)
    ensures var r := FormatPrLink(number, url);
      var d := NatToString(number);
      && r[..6] == " [PR #"
      && r[6..6 + |d|] == d
      && r[6 + |d|] == ']' && r[7 + |d|] == '('
      && r[8 + |d|..|r| - 1] == url
      && r[|r| - 1] == ')'
  {
    var d := NatToString(number);
    var r := FormatPrLink(number, url);
    assert r == " [PR #" + d + "](" + url + ")";
  }

  /** The commit suffix ` "msg"`, present only when a message is known. */
  function CommitSuffix(messages: map<string, string>, name: string): (r: string)
    ensures r == "" <==> name !in messages
  {
    if name in messages then " \"" + messages[name] + "\"" else ""
  }

  /** The link suffix, present only when a pull request is known. */
  function PrSuffix(prs: map<string, (nat, string)>, name: string): (r: string)
    ensures r == "" <==> name !in prs
  {
    if name in prs then FormatPrLink(prs[name].0, prs[name].1) else ""
  }

  /** What every line needs besides the tree: the checked-out branch, the
      pull requests and the first lines of the tip commits. */
  datatype Labels = Labels(current: string, prs: map<string, (nat, string)>, messages: map<string, string>)

  const LastConnector := "└── "
  const MidConnector := "├── "
  const LastIndent := "    "
  const MidIndent := "│   "

  /** The line printed for `name`: the prefix, then its entry. */
  function BranchLine(l: Labels, name: string, prefix: string, isLast: bool): string {
    prefix + Entry(l, name, isLast)
  }

  /** Connector, marked name, link and message. */
  function Entry(l: Labels, name: string, isLast: bool): string {
    (if isLast then LastConnector else MidConnector)
      + FormatBranchName(name, name == l.current) + PrSuffix(l.prs, name) + CommitSuffix(l.messages, name)
  }

  /** The prefix the children of a node are printed with. */
  function ChildPrefix(prefix: string, isLast: bool): string {
    prefix + if isLast then LastIndent else MidIndent
  }

  /** `print_branch_tree`: the node's line, then each child's subtree in
      list order, only the final child marked last. The source keeps no set
      of visited branches and so never ends on a cyclic tree; `depth` bounds
      how many levels are printed. */
  function RenderTree(t: map<string, seq<string>>, l: Labels, name: string, prefix: string, isLast: bool, depth: nat): (r: seq<string>)
    ensures depth > 0 <==> r != []
    ensures depth > 0 ==> r[0] == BranchLine(l, name, prefix, isLast)
    decreases depth, 0
  {
    if depth == 0 then []
    else
      var children := if name in t then t[name] else [];
      [BranchLine(l, name, prefix, isLast)] + RenderList(t, l, children, ChildPrefix(prefix, isLast), depth - 1)
  }

  /** The subtrees of `names` one after the other, the last one marked last. */
  function RenderList(t: map<string, seq<string>>, l: Labels, names: seq<string>, prefix: string, depth: nat): (r: seq<string>)
    decreases depth, 1, |names|
  {
    if names == [] then []
    else RenderTree(t, l, names[0], prefix, |names| == 1, depth) + RenderList(t, l, names[1..], prefix, depth)
  }

  /** `print_branch_hierarchy`: the roots' subtrees with an empty prefix. */
  function RenderHierarchy(t: map<string, seq<string>>, l: Labels, roots: seq<string>, depth: nat): seq<string> {
    RenderList(t, l, roots, "", depth)
  }

  /** Every line of a subtree starts with the prefix it was given. */
  lemma {:induction false} TreeLinesStartWithPrefix(t: map<string, seq<string>>, l: Labels, name: string, prefix: string, isLast: bool, depth: nat)
    ensures forall line | line in RenderTree(t, l, name, prefix, isLast, depth) :: StartsWith(line, prefix)
    decreases depth, 0
  {
    if depth > 0 {
      var children := if name in t then t[name] else [];
      var p := ChildPrefix(prefix, isLast);
      PrefixOfAppend(prefix, if isLast then LastIndent else MidIndent);
      PrefixOfAppend(prefix, Entry(l, name, isLast));
      ListLinesStartWithPrefix(t, l, children, p, depth - 1);
      forall line | line in RenderList(t, l, children, p, depth - 1)
        ensures StartsWith(line, prefix)
      {
        PrefixOfPrefix(line, p, prefix);
      }
    }
  }

  /** Every line of a list of subtrees starts with the prefix they share. */
  lemma {:induction false} ListLinesStartWithPrefix(t: map<string, seq<string>>, l: Labels, names: seq<string>, prefix: string, depth: nat)
    ensures forall line | line in RenderList(t, l, names, prefix, depth) :: StartsWith(line, prefix)
    decreases depth, 1, |names|
  {
    if names != [] {
      TreeLinesStartWithPrefix(t, l, names[0], prefix, |names| == 1, depth);
      ListLinesStartWithPrefix(t, l, names[1..], prefix, depth);
    }
  }

  lemma PrefixOfAppend(s: string, rest: string)
    ensures StartsWith(s + rest, s)
  {
    assert (s + rest)[..|s|] == s;
  }

  lemma PrefixOfPrefix(line: string, p: string, prefix: string)
    requires StartsWith(line, p) && StartsWith(p, prefix)
    ensures StartsWith(line, prefix)
  {
    assert line[..|prefix|] == line[..|p|][..|prefix|];
  }

  /** A branch that is its own child prints one more line for every level
      allowed: without a depth bound the source prints forever. */
  lemma {:induction false} SelfLoopNeverEnds(l: Labels, name: string, prefix: string, isLast: bool, depth: nat)
    ensures |RenderTree(map[name := [name]], l, name, prefix, isLast, depth)| == depth
    decreases depth
  {
    if depth > 0 {
      var p := ChildPrefix(prefix, isLast);
      SelfLoopNeverEnds(l, name, p, true, depth - 1);
      assert RenderList(map[name := [name]], l, [name], p, depth - 1)
        == RenderTree(map[name := [name]], l, name, p, true, depth - 1);
    }
  }

  /** A tree in which "c" has two parents. */
  const Diamond: map<string, seq<string>> := map["main" := ["a", "b"], "a" := ["c"], "b" := ["c"]]
  const DiamondLabels := Labels("main", map[], map[])

  lemma DiamondA()
    ensures RenderTree(Diamond, DiamondLabels, "a", "    ", false, 2) == ["    ├──   a", "    │   └──   c"]
  {
    assert ChildPrefix("    ", false) == "    │   ";
    var c := Leaf(Diamond, DiamondLabels, "c", "    │   ", "    │   └──   c");
    assert RenderList(Diamond, DiamondLabels, ["c"], "    │   ", 1) == c;
    assert BranchLine(DiamondLabels, "a", "    ", false) == "    ├──   a";
  }

  lemma DiamondB()
    ensures RenderTree(Diamond, DiamondLabels, "b", "    ", true, 2) == ["    └──   b", "        └──   c"]
  {
    assert ChildPrefix("    ", true) == "        ";
    var c := Leaf(Diamond, DiamondLabels, "c", "        ", "        └──   c");
    assert RenderList(Diamond, DiamondLabels, ["c"], "        ", 1) == c;
    assert BranchLine(DiamondLabels, "b", "    ", true) == "    └──   b";
  }

  /** A branch listed under two parents is printed under each of them, with
      the connectors and indentation of its position. */
  lemma SharedChildPrintedTwice()
    ensures RenderHierarchy(Diamond, DiamondLabels, ["main"], 3)
      == ["└── * main",
          "    ├──   a",
          "    │   └──   c",
          "    └──   b",
          "        └──   c"]
  {
    assert ChildPrefix("", true) == "    ";
    assert BranchLine(DiamondLabels, "main", "", true) == "└── * main";
    DiamondA();
    DiamondB();
    assert RenderList(Diamond, DiamondLabels, ["a", "b"], "    ", 2)
      == RenderTree(Diamond, DiamondLabels, "a", "    ", false, 2) + RenderTree(Diamond, DiamondLabels, "b", "    ", true, 2);
  }

  /** A branch without children prints its line alone. */
  lemma Leaf(t: map<string, seq<string>>, l: Labels, name: string, prefix: string, line: string) returns (r: seq<string>)
    requires name !in t && name != l.current && name !in l.prs && name !in l.messages
    requires line == prefix + LastConnector + "  " + name
    ensures r == [line] && RenderTree(t, l, name, prefix, true, 1) == r
  {
    r := [line];
    assert FormatBranchName(name, name == l.current) == "  " + name;
    assert Entry(l, name, true) == LastConnector + ("  " + name) + "" + "";
    assert prefix + (LastConnector + ("  " + name) + "" + "") == line;
    assert RenderList(t, l, [], ChildPrefix(prefix, true), 0) == [];
  }
}
