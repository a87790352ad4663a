/** Key presses on a page as the editor builds it: each scenario makes a
    new editor, presses keys on it through `OnKeyDown`, and states what the
    outline looks like afterwards. */
module Scenarios {
  import opened Wrappers
  import opened Regions
  import opened Outline
  import opened Keys
  import opened Bindings
  import opened Editing

  /** Tab on the one empty line of a new page makes it a child level:
      level 2 is written after the line and takes the caret. */
  method TabIndents() returns (e: Editor, r: Verdict)
    ensures fresh(e) && fresh(e.Levels()) && e.Valid()
    ensures r == Handled(Command.Indent)
    ensures e.levelMap.Keys == {0, 1, 2} && e.levelMap[1].level == e.firstLevel
    ensures e.levelMap[2].parent == Some(e.firstLevel) && e.firstLevel != e.rootLevel
    ensures e.firstLevel.content == [Line(""), LevelRef(2)]
    ensures e.levelMap[2].level.content == [Line("")]
    ensures e.focus == Some(Caret(2, 0))
  {
    e := new Editor();
    TabPicks();
    r := e.OnKeyDown(KeyEvent("Tab", false, false, false), 1, 0);
  }

  /** Tab, then Shift+Tab on the new child: the caret comes back out to a
      new empty line appended to the first level after the child. */
  method TabThenShiftTab() returns (e: Editor, r: Verdict)
    ensures fresh(e) && e.Valid()
    ensures r == Handled(Command.Outdent)
    ensures e.firstLevel.content == [Line(""), LevelRef(2), Line("")]
    ensures e.focus == Some(Caret(1, 2))
  {
    var tabbed;
    e, tabbed := TabIndents();
    var child := e.levelMap[2].level;
    assert e.EntryOk(2);
    assert e.GetParent(child) == Some(e.firstLevel) && e.Position(child) == Some(1);
    ghost var b := e.Snap(child);
    assert b.parentContent == [Line(""), LevelRef(2)] && b.root == e.rootLevel;
    ShiftTabPicks();
    r := e.OnKeyDown(KeyEvent("Tab", true, false, false), 2, 0);
    assert e.OutdentEffect(b, child, 0);
  }

  /** Shift+Enter in the first level of a new page writes a sibling level 2
      after it into the root. */
  method ShiftEnterSplits() returns (r: Verdict, root: seq<ContentNode>)
    ensures r == Handled(Command.SplitHorizontal)
    ensures root == [LevelRef(1), LevelRef(2)]
  {
    var e := new Editor();
    var ev := KeyEvent("Enter", true, false, false);
    ShiftEnterPicks();
    r := e.OnKeyDown(ev, 1, 0);
    root := e.rootLevel.content;
  }

  /** The chord each scenario's key press selects in the table. */
  lemma TabPicks()
    ensures FirstMatch(KeyEvent("Tab", false, false, false), 0) == Some(0)
    ensures Table[0].command == Command.Indent
  {
    FirstMatchBySignature(KeyEvent("Tab", false, false, false), 0);
  }

  lemma ShiftTabPicks()
    ensures FirstMatch(KeyEvent("Tab", true, false, false), 0) == Some(1)
    ensures Table[1].command == Command.Outdent
  {
    FirstMatchBySignature(KeyEvent("Tab", true, false, false), 1);
  }

  lemma ShiftEnterPicks()
    ensures FirstMatch(KeyEvent("Enter", true, false, false), 0) == Some(2)
    ensures Table[2].command == Command.SplitHorizontal
  {
    FirstMatchBySignature(KeyEvent("Enter", true, false, false), 2);
  }
}
