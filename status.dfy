/** The status display of src/git/status.rs: the three-character code of a
    file's status, the colour and text it is shown with, and the two
    questions asked of a status list. Reading the list from the repository
    is not modelled; the entries are given. */
module Status {
  import opened Errors
  import opened Text

  /** The flags of a git status that the code looks at. */
  datatype Flag =
    | IndexNew | IndexModified | IndexDeleted | IndexRenamed | IndexTypechange
    | WtNew | WtModified | WtDeleted | WtRenamed | WtTypechange
    | Conflicted

  type FileStatus = set<Flag>

  datatype StatusEntry = StatusEntry(path: string, status: FileStatus)

  datatype Colour = Green | Yellow | Red | Blue | BrightRed | Plain

  /** The index flags in the order the code looks at them, and their letters. */
  const IndexOrder: seq<Flag> := [IndexNew, IndexModified, IndexDeleted, IndexRenamed, IndexTypechange]
  const IndexLetters := "AMDRT"
  /** The worktree flags in the order the code looks at them, and their letters. */
  const WorktreeOrder: seq<Flag> := [WtNew, WtModified, WtDeleted, WtRenamed, WtTypechange]
  const WorktreeLetters := "?MDRT"

  /** First column: the first index flag that is set. */
  function IndexChar(s: FileStatus): char {
    if IndexNew in s then 'A'
    else if IndexModified in s then 'M'
    else if IndexDeleted in s then 'D'
    else if IndexRenamed in s then 'R'
    else if IndexTypechange in s then 'T'
    else ' '
  }

  /** Second column: the first worktree flag that is set. */
  function WorktreeChar(s: FileStatus): char {
    if WtNew in s then '?'
    else if WtModified in s then 'M'
    else if WtDeleted in s then 'D'
    else if WtRenamed in s then 'R'
    else if WtTypechange in s then 'T'
    else ' '
  }

  /** The code built by `format_status_entry`. */
  function StatusCode(s: FileStatus): string {
    [IndexChar(s), WorktreeChar(s), if Conflicted in s then 'C' else ' ']
  }

  /** The first half of `format_status_entry`: one push per column, of the
      letter of the first flag of its chain that is set. */
  method BuildStatusCode(s: FileStatus) returns (code: string)
    ensures code == StatusCode(s)
  {
    code := "";
    var c: char;
    if IndexNew in s {
      c := 'A';
    } else if IndexModified in s {
      c := 'M';
    } else if IndexDeleted in s {
      c := 'D';
    } else if IndexRenamed in s {
      c := 'R';
    } else if IndexTypechange in s {
      c := 'T';
    } else {
      c := ' ';
    }
    code := code + [c];
    if WtNew in s {
      c := '?';
    } else if WtModified in s {
      c := 'M';
    } else if WtDeleted in s {
      c := 'D';
    } else if WtRenamed in s {
      c := 'R';
    } else if WtTypechange in s {
      c := 'T';
    } else {
      c := ' ';
    }
    code := code + [c];
    c := if Conflicted in s then 'C' else ' ';
    code := code + [c];
  }

  /** The position of the first flag of `order` that `s` holds. */
  function FirstSet(order: seq<Flag>, s: FileStatus): (r: Option<nat>)
    ensures r.Some? ==> r.value < |order| && order[r.value] in s
    ensures r.Some? ==> forall j :: 0 <= j < r.value ==> order[j] !in s
    ensures r.None? ==> forall j :: 0 <= j < |order| ==> order[j] !in s
  {
    if order == [] then None
    else if order[0] in s then Some(0)
    else
      var r := FirstSet(order[1..], s);
      if r.None? then None else Some(r.value + 1)
  }

  /** The letter of the first flag of `order` set in `s`, blank if none. */
  function Column(order: seq<Flag>, letters: string, s: FileStatus): char
    requires |letters| == |order|
  {
    var i := FirstSet(order, s);
    if i.Some? then letters[i.value] else ' '
  }

  /** The code agrees with the table: each column holds the letter of the
      first flag set in its order, and the third column marks a conflict. */
  lemma StatusCodeByTable(s: FileStatus)
    ensures |StatusCode(s)| == 3
    ensures StatusCode(s)[0] == Column(IndexOrder, IndexLetters, s)
    ensures StatusCode(s)[1] == Column(WorktreeOrder, WorktreeLetters, s)
    ensures StatusCode(s)[2] == 'C' <==> Conflicted in s
    ensures StatusCode(s)[2] == ' ' <==> Conflicted !in s
  {
    FirstSetOfFive(IndexOrder, s);
    FirstSetOfFive(WorktreeOrder, s);
  }

  /** `FirstSet` on a five-flag order, spelled out. */
  lemma FirstSetOfFive(order: seq<Flag>, s: FileStatus)
    requires |order| == 5
    ensures FirstSet(order, s)
      == if order[0] in s then Some(0)
         else if order[1] in s then Some(1)
         else if order[2] in s then Some(2)
         else if order[3] in s then Some(3)
         else if order[4] in s then Some(4)
         else None
  {
    var r := FirstSet(order, s);
    if r.Some? {
      var k := r.value;
      assert forall j :: 0 <= j < k ==> order[j] !in s;
    }
  }

  /** The columns are blank exactly when no flag of theirs is set. */
  lemma BlankColumns(s: FileStatus)
    ensures StatusCode(s)[0] == ' ' <==> forall f :: f in IndexOrder ==> f !in s
    ensures StatusCode(s)[1] == ' ' <==> forall f :: f in WorktreeOrder ==> f !in s
  {
  }

  /** The colour of the match arm a trimmed code selects. */
  function ArmColour(key: string): Colour {
    if key in ["A", "A ", "A  "] then Green
    else if key in ["M", "M ", " M", "M  ", " M "] then Yellow
    else if key in ["D", "D ", " D", "D  ", " D "] then Red
    else if key in ["??", "? ", " ?"] then Blue
    else if key in ["C", " C", "C ", "  C"] then BrightRed
    else Plain
  }

  /** Only the blue arm: its keys and no other. */
  lemma BlueArmKeys(key: string)
    ensures ArmColour(key) == Blue <==> key in ["??", "? ", " ?"]
  {
  }

  /** The text shown for an entry and its colour: the arm chosen by the
      trimmed code; the blue arm shows "??" instead of the code. */
  function FormatStatusEntry(s: FileStatus): (string, Colour) {
    var code := StatusCode(s);
    var colour := ArmColour(Trim(code));
    (if colour == Blue then "??" else code, colour)
  }

  /** The trimmed code is never "??", "? " or " ?": the text shown is
      always the code built. */
  lemma ShownAsBuilt(s: FileStatus)
    ensures FormatStatusEntry(s).0 == StatusCode(s)
  {
    var code := StatusCode(s);
    NoQuestionPair(code);
    BlueArmKeys(Trim(code));
  }

  /** A code with no '?' outside the middle column never trims to one of
      the keys of the blue arm. */
  lemma NoQuestionPair(code: string)
    requires |code| == 3 && code[0] != '?' && code[2] != '?'
    ensures Trim(code) !in ["??", "? ", " ?"]
  {
    var key := Trim(code);
    var i := TrimIsInfix(code);
    if |key| == 2 {
      NotQuestionPair(code, i, key);
    }
  }

  /** Two trimmed characters of such a code: not both '?', and neither a
      blank. */
  lemma NotQuestionPair(code: string, i: nat, key: string)
    requires |code| == 3 && code[0] != '?' && code[2] != '?'
    requires |key| == 2 && i + 2 <= 3 && code[i..i + 2] == key && Trimmed(key)
    ensures key != "??" && key != "? " && key != " ?"
  {
    assert key[0] == code[i] && key[1] == code[i + 1];
    assert !IsWhitespace(key[0]) && !IsWhitespace(key[1]);
  }

  /** A file that is only untracked is shown as " ? " in the plain colour:
      the arm meant for it never matches. */
  lemma UntrackedShownPlain()
    ensures FormatStatusEntry({WtNew}) == (" ? ", Plain)
  {
    var s: FileStatus := {WtNew};
    UntrackedKey(s);
    LoneMarkPlain();
  }

  /** A lone "?" matches no arm but the last. */
  lemma LoneMarkPlain()
    ensures ArmColour("?") == Plain
  {
    BlueArmKeys("?");
  }

  /** An entry whose only column is an untracked mark trims to "?". */
  lemma UntrackedKey(s: FileStatus)
    requires WtNew in s && Conflicted !in s && forall f :: f in IndexOrder ==> f !in s
    ensures StatusCode(s) == " ? " && Trim(StatusCode(s)) == "?"
  {
    BlankColumns(s);
    assert StatusCode(s) == [' ', '?', ' '];
    SpacedMark();
  }

  /** The untracked code, trimmed. */
  lemma SpacedMark()
    ensures Trim(" ? ") == "?"
  {
    TrimPadded(" ", "?", " ");
    assert " " + "?" + " " == " ? ";
  }

  /** The display the blue arm intends: a code that trims to a lone "?" is
      shown as "??" in blue; every other code as `FormatStatusEntry` shows
      it. */
  function IntendedStatusEntry(s: FileStatus): (r: (string, Colour))
    ensures Trim(StatusCode(s)) == "?" ==> r == ("??", Blue)
    ensures Trim(StatusCode(s)) != "?" ==> r == FormatStatusEntry(s)
  {
    if Trim(StatusCode(s)) == "?" then ("??", Blue) else FormatStatusEntry(s)
  }

  /** With the correction an entry that is only untracked, in any
      combination with no other column set, is shown as "??" in blue. */
  lemma UntrackedShownAsQuestionMarks(s: FileStatus)
    requires WtNew in s && Conflicted !in s && forall f :: f in IndexOrder ==> f !in s
    ensures IntendedStatusEntry(s) == ("??", Blue)
  {
    UntrackedKey(s);
  }

  /** `has_conflicts`: whether any entry is conflicted; the scan stops at
      the first one. */
  method HasConflicts(entries: seq<StatusEntry>) returns (r: bool)
    ensures r <==> exists e :: e in entries && Conflicted in e.status
  {
    for i := 0 to |entries|
      invariant forall j :: 0 <= j < i ==> Conflicted !in entries[j].status
    {
      if Conflicted in entries[i].status {
        return true;
      }
    }
    return false;
  }

  /** `has_uncommitted_changes`: any entry at all, untracked files
      included. */
  function HasUncommittedChanges(entries: seq<StatusEntry>): (r: bool)
    ensures r <==> exists e :: e in entries
  {
    if entries == [] then false
    else assert entries[0] in entries; true
  }

  /** A conflict is an uncommitted change. */
  lemma ConflictsAreChanges(entries: seq<StatusEntry>, e: StatusEntry)
    requires e in entries && Conflicted in e.status
    ensures HasUncommittedChanges(entries)
  {
  }
}
