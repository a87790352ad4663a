/** The outline editor (main.js, class `Editor`): a registry of levels keyed
    by id, the counter the ids come from, the root level, and the structural
    commands the chord table dispatches to. The browser caret is the ghost
    field `focus`: the level and child index it was last placed on. */
module Editing {
  import opened Wrappers
  import opened Regions
  import opened Levels
  import opened Outline
  import opened Keys
  import opened Bindings

  /** A registry entry: the level and the level it was created under (the
      root has none). */
  datatype Entry = Entry(level: Level, parent: Option<Level>)

  /** What a key press came to: no level under the caret, a press the
      editor lets through, or a command that handled it. */
  datatype Verdict = NoLevel | Passed | Handled(command: Command)

  /** The part of the editor's state a command on a level reads or may
      change, as it was before the command: what the effects of the
      commands are stated against. */
  datatype Before = Before(levelMap: map<nat, Entry>, nextId: nat, focus: Option<Caret>,
                           root: Level?, content: seq<ContentNode>, parent: Option<Level>,
                           parentContent: seq<ContentNode>, position: Option<nat>,
                           prev: Option<ContentNode>, next: Option<ContentNode>)

  /** A level with a place in its parent has a parent, and its place is an
      index of the parent's content. */
  predicate Coherent(b: Before) {
    b.position.Some? ==> b.parent.Some? && b.position.value < |b.parentContent|
  }

  /** Whether `cmd`, run with the caret on child `at` of a level in state
      `b`, reports the key press as handled: `erase`, `splitHorz`,
      `cursorUp` and `cursorDown` can decline; every other command of the
      table always returns true. */
  predicate Takes(cmd: Command, b: Before, at: nat)
    requires at < |b.content|
  {
    if cmd.Erase? then |b.content| == 1 && IsShortLine(b.content[at])
    else if cmd.SplitHorizontal? then b.parent.Some?
    else if cmd.CursorUp? then b.prev.Some? && b.prev.value.LevelRef? && at == 0
    else if cmd.CursorDown? then
      b.next.Some? && b.next.value.LevelRef? && at == |b.content| - 1
    else true
  }

  class Editor {
    var levelMap: map<nat, Entry>
    var nextId: nat
    var rootLevel: Level?
    var firstLevel: Level?
    ghost var focus: Option<Caret>

    ghost function Levels(): set<Level>
      reads this`levelMap
    {
      set id | id in levelMap :: levelMap[id].level
    }

    /** `l` is the level the registry holds under its own id. */
    predicate Registered(l: Level)
      reads this`levelMap
    {
      l.id in levelMap && levelMap[l.id].level == l
    }

    /** An entry names its own id, below the counter; a child sits one level
        deeper than its registered parent, was created after it, and appears
        in the parent's content; only the root has no parent. */
    ghost predicate EntryOk(id: nat)
      reads this`levelMap, this`nextId, this`rootLevel, this`firstLevel, Levels()
      requires id in levelMap
    {
      var e := levelMap[id];
      e.level.id == id && id < nextId
      && match e.parent
         case None => e.level == rootLevel
         case Some(p) =>
           p.id < id && Registered(p) && e.level.depth == p.depth + 1
           && LevelRef(id) in p.content
    }

    /** `l`'s content is never empty, and every level element in it is a
        registered child of `l`. */
    ghost predicate RegionOk(l: Level)
      reads this`levelMap, l
    {
      |l.content| >= 1
      && forall k :: 0 <= k < |l.content| && l.content[k].LevelRef? ==>
        l.content[k].id in levelMap && levelMap[l.content[k].id].parent == Some(l)
    }

    ghost predicate Valid()
      reads this`levelMap, this`nextId, this`rootLevel, this`firstLevel, Levels()
    {
      rootLevel != null && Registered(rootLevel) && rootLevel.depth == -1
      && levelMap[rootLevel.id].parent.None?
      && firstLevel != null && Registered(firstLevel)
      && (forall id {:trigger EntryOk(id)} :: id in levelMap ==> EntryOk(id))
      && (forall id {:trigger RegionOk(levelMap[id].level)} :: id in levelMap ==> RegionOk(levelMap[id].level))
    }

    /** `Level.nextId`: the current counter value, and the counter moves on. */
    method NextId() returns (id: nat)
      modifies this`nextId
      ensures id == old(nextId) && nextId == old(nextId) + 1
    {
      id := nextId;
      nextId := nextId + 1;
    }

    /** `makeRootLevel`: a level of depth -1, registered with no parent, its
        initial line removed. */
    method MakeRootLevel() returns (root: Level)
      modifies this`levelMap, this`nextId
      ensures fresh(root) && root.id == old(nextId) && nextId == old(nextId) + 1
      ensures root.depth == -1 && root.content == []
      ensures levelMap == old(levelMap)[root.id := Entry(root, None)]
    {
      var id := NextId();
      root := new Level(id, -1);
      levelMap := levelMap[root.id := Entry(root, None)];
      root.Remove(0);
    }

    /** `makeChildLevel(parent)`: a level one deeper than `parent`, holding
        one empty line, registered under `parent`; no other entry changes. */
    method MakeChildLevel(parent: Level) returns (child: Level)
      modifies this`levelMap, this`nextId
      ensures fresh(child) && child.id == old(nextId) && nextId == old(nextId) + 1
      ensures child.depth == parent.depth + 1 && child.content == [Line("")]
      ensures levelMap == old(levelMap)[child.id := Entry(child, Some(parent))]
    {
      var id := NextId();
      child := new Level(id, parent.depth + 1);
      levelMap := levelMap[child.id := Entry(child, Some(parent))];
    }

    /** `getParent(level)`: the parent recorded for the level's id. */
    function GetParent(level: Level): (r: Option<Level>)
      reads this`levelMap
      ensures level.id !in levelMap ==> r.None?
      ensures level.id in levelMap ==> r == levelMap[level.id].parent
    {
      if level.id in levelMap then levelMap[level.id].parent else None
    }

    /** `getLevel(id)`: the level registered under `id`, if any. */
    function GetLevel(id: nat): (r: Option<Level>)
      reads this`levelMap
      ensures r.Some? <==> id in levelMap
      ensures r.Some? ==> r.value == levelMap[id].level
    {
      if id in levelMap then Some(levelMap[id].level) else None
    }

    /** In a valid registry the level found under `id` is registered and
        carries that id. */
    lemma GetLevelFinds(id: nat)
      requires Valid()
      ensures GetLevel(id).Some? ==> Registered(GetLevel(id).value) && GetLevel(id).value.id == id
    {
      if id in levelMap {
        assert EntryOk(id);
      }
    }

    /** The parent of `level`, as a frame: the one other level a command on
        `level` may rewrite. */
    ghost function ParentFrame(level: Level): set<Level>
      reads this`levelMap
    {
      if level.id in levelMap && levelMap[level.id].parent.Some?
      then {levelMap[level.id].parent.value} else {}
    }

    /** The content of every registered level, by id. */
    ghost function Tree(): Tree
      reads this`levelMap, Levels()
    {
      map id | id in levelMap :: levelMap[id].level.content
    }

    /** A valid registry is an ordered outline, so the caret descents end. */
    lemma TreeOrdered()
      requires Valid()
      ensures Ordered(Tree(), nextId)
    {
      forall id | id in levelMap
        ensures RegionOk(levelMap[id].level) && EntryOk(id)
      {
      }
      forall id, k | id in levelMap && 0 <= k < |levelMap[id].level.content|
                     && levelMap[id].level.content[k].LevelRef?
        ensures levelMap[id].level.content[k].id > id
      {
        assert EntryOk(levelMap[id].level.content[k].id);
      }
    }

    /** The descent loop of `focusStart`. */
    method FirstLeafOf(l: Level) returns (c: Caret)
      requires Valid() && Registered(l)
      ensures Ordered(Tree(), nextId) && c == FirstLeaf(Tree(), nextId, l.id)
      ensures l.content[0].Line? ==> c == Caret(l.id, 0)
    {
      TreeOrdered();
      var cur := l;
      while cur.content[0].LevelRef?
        invariant Registered(cur)
        invariant FirstLeaf(Tree(), nextId, cur.id) == FirstLeaf(Tree(), nextId, l.id)
        decreases nextId - cur.id
      {
        assert RegionOk(levelMap[cur.id].level);
        assert EntryOk(cur.content[0].id);
        cur := levelMap[cur.content[0].id].level;
      }
      c := Caret(cur.id, 0);
    }

    /** The descent loop of `focusEnd`. */
    method LastLeafOf(l: Level) returns (c: Caret)
      requires Valid() && Registered(l)
      ensures Ordered(Tree(), nextId) && c == LastLeaf(Tree(), nextId, l.id)
      ensures l.content[|l.content| - 1].Line? ==> c == Caret(l.id, |l.content| - 1)
    {
      TreeOrdered();
      var cur := l;
      while cur.content[|cur.content| - 1].LevelRef?
        invariant Registered(cur)
        invariant LastLeaf(Tree(), nextId, cur.id) == LastLeaf(Tree(), nextId, l.id)
        decreases nextId - cur.id
      {
        assert RegionOk(levelMap[cur.id].level);
        assert EntryOk(cur.content[|cur.content| - 1].id);
        cur := levelMap[cur.content[|cur.content| - 1].id].level;
      }
      c := Caret(cur.id, |cur.content| - 1);
    }

    /** `focusStart`: the caret goes to the first line reached by descent. */
    method FocusStart(l: Level)
      requires Valid() && Registered(l)
      modifies this`focus
      ensures Valid()
      ensures Ordered(Tree(), nextId) && focus == Some(FirstLeaf(Tree(), nextId, l.id))
      ensures l.content[0].Line? ==> focus == Some(Caret(l.id, 0))
    {
      var c := FirstLeafOf(l);
      ghost var t := Tree();
      assert RegionOk(levelMap[rootLevel.id].level);
      focus := Some(c);
      assert Tree() == t;
      KeepsValid(rootLevel);
    }

    /** `focusEnd`: the caret goes to the last line reached by descent. */
    method FocusEnd(l: Level)
      requires Valid() && Registered(l)
      modifies this`focus
      ensures Valid()
      ensures Ordered(Tree(), nextId) && focus == Some(LastLeaf(Tree(), nextId, l.id))
      ensures l.content[|l.content| - 1].Line? ==> focus == Some(Caret(l.id, |l.content| - 1))
    {
      var c := LastLeafOf(l);
      ghost var t := Tree();
      assert RegionOk(levelMap[rootLevel.id].level);
      focus := Some(c);
      assert Tree() == t;
      KeepsValid(rootLevel);
    }

    /** Where `level` sits in its parent's content: the node whose
        `previousSibling` and `nextSibling` the commands look at. */
    function Position(level: Level): (r: Option<nat>)
      reads this`levelMap, ParentFrame(level)
      ensures r.Some? ==> GetParent(level).Some?
      ensures r.Some? ==> r.value < |GetParent(level).value.content|
                          && GetParent(level).value.content[r.value] == LevelRef(level.id)
    {
      match GetParent(level)
      case None => None
      case Some(p) => IndexOf(p.content, LevelRef(level.id))
    }

    /** A registered level that has a parent sits in the parent's content. */
    lemma Placed(level: Level)
      requires Valid() && Registered(level) && GetParent(level).Some?
      ensures Registered(GetParent(level).value) && Position(level).Some?
    {
      assert EntryOk(level.id);
    }

    /** Rewriting one level's content keeps the registry valid when the
        content stays non-empty and holds the same level elements. */
    twostate lemma KeepsValid(l: Level)
      requires old(Valid()) && old(Registered(l))
      requires levelMap == old(levelMap) && nextId == old(nextId)
      requires rootLevel == old(rootLevel) && firstLevel == old(firstLevel)
      requires forall id :: id in levelMap && levelMap[id].level != l ==>
                 levelMap[id].level.content == old(levelMap[id].level.content)
      requires |l.content| >= 1
      requires forall y: ContentNode :: y.LevelRef? ==> (y in l.content <==> y in old(l.content))
      ensures Valid()
    {
      forall id | id in levelMap
        ensures EntryOk(id) && RegionOk(levelMap[id].level)
      {
        assert old(EntryOk(id)) && old(RegionOk(levelMap[id].level));
        var e := levelMap[id];
        if e.parent.Some? {
          assert LevelRef(id) in e.parent.value.content;
        }
        if e.level == l {
          forall k | 0 <= k < |l.content| && l.content[k].LevelRef?
            ensures l.content[k].id in levelMap && levelMap[l.content[k].id].parent == Some(l)
          {
            assert l.content[k] in old(l.content);
          }
        }
      }
    }

    /** Registering a fresh child of `p` and placing its element in `p`'s
        content keeps the registry valid. */
    twostate lemma AddsChild(p: Level, new c: Level)
      requires old(Valid()) && old(Registered(p)) && fresh(c)
      requires c.id == old(nextId) && nextId == old(nextId) + 1
      requires levelMap == old(levelMap)[c.id := Entry(c, Some(p))]
      requires rootLevel == old(rootLevel) && firstLevel == old(firstLevel)
      requires c.depth == p.depth + 1 && c.content == [Line("")]
      requires forall id :: id in old(levelMap) && old(levelMap)[id].level != p ==>
                 levelMap[id].level.content == old(levelMap[id].level.content)
      requires |p.content| >= 1
      requires forall y: ContentNode :: y.LevelRef? ==>
                 (y in p.content <==> y in old(p.content) || y == LevelRef(c.id))
      ensures Valid()
    {
      assert old(EntryOk(rootLevel.id)) && old(EntryOk(firstLevel.id)) && old(EntryOk(p.id));
      forall id | id in levelMap
        ensures EntryOk(id) && RegionOk(levelMap[id].level)
      {
        if id != c.id {
          assert old(EntryOk(id)) && old(RegionOk(levelMap[id].level));
          var e := levelMap[id];
          if e.parent.Some? {
            assert LevelRef(id) in e.parent.value.content;
          }
          var l := e.level;
          forall k | 0 <= k < |l.content| && l.content[k].LevelRef?
            ensures l.content[k].id in levelMap && levelMap[l.content[k].id].parent == Some(l)
          {
            if l == p {
              assert l.content[k] in p.content;
              if l.content[k] != LevelRef(c.id) {
                assert l.content[k] in old(p.content);
                var j :| 0 <= j < |old(p.content)| && old(p.content)[j] == l.content[k];
                var x := l.content[k].id;
                assert old(EntryOk(x));
              }
            } else {
              assert l.content[k] == old(l.content)[k];
              var x := l.content[k].id;
              assert old(EntryOk(x));
            }
          }
        } else {
          assert c.content[0].Line?;
        }
      }
    }

    /** The removal `indent`, `outdent` and `splitHorz` start with: the
        caret node goes when it is an empty line, last, and not alone. */
    method DropCaretLine(level: Level, at: nat)
      requires Valid() && Registered(level) && at < |level.content|
      modifies level
      ensures Valid()
      ensures level.content == DropEmptyTail(old(level.content), at)
    {
      if DropsCaretLine(level.content, at) {
        level.Remove(at);
        KeepsValid(level);
      }
    }

    /** What a command on `level` reads of the state it starts from: the
        registry, the counter, the caret, the root, `level`'s content, its
        parent and the parent's content, and where `level` sits there. */
    ghost function Snap(level: Level): (b: Before)
      reads this, level, ParentFrame(level)
      ensures Coherent(b)
    {
      Before(levelMap, nextId, focus, rootLevel, level.content, GetParent(level),
             match GetParent(level) case None => [] case Some(p) => p.content,
             Position(level), PrevSibling(level), NextSibling(level))
    }

    /** The parent's content, if `level` has a parent, is as it was. */
    ghost predicate ParentKept(b: Before, level: Level)
      reads this`levelMap, ParentFrame(level)
    {
      GetParent(level) == b.parent
      && (GetParent(level).Some? ==> GetParent(level).value.content == b.parentContent)
    }

    /** Nothing a command may touch has changed. */
    ghost predicate Untouched(b: Before, level: Level)
      reads this, level, ParentFrame(level)
    {
      levelMap == b.levelMap && nextId == b.nextId && focus == b.focus
      && level.content == b.content && ParentKept(b, level)
    }

    /** `indent`: when a level follows the caret node the caret moves to
        its first line and nothing else changes; otherwise the trailing
        empty caret line is dropped and one new level, one deeper, is
        registered under `level` with the next id and written right after
        the caret node, with the caret on its line. */
    ghost predicate IndentEffect(b: Before, level: Level, at: nat)
      requires at < |b.content|
      reads this, level, ParentFrame(level), Levels()
    {
      var s := b.content;
      ParentKept(b, level)
      && if at + 1 < |s| && s[at + 1].LevelRef? then
           levelMap == b.levelMap && nextId == b.nextId && level.content == s
           && Ordered(Tree(), nextId) && s[at + 1].id in Tree()
           && focus == Some(FirstLeaf(Tree(), nextId, s[at + 1].id))
         else
           var t := DropEmptyTail(s, at);
           var n := b.nextId;
           nextId == n + 1 && n !in b.levelMap && n in levelMap
           && levelMap == b.levelMap[n := levelMap[n]]
           && levelMap[n].parent == Some(level)
           && levelMap[n].level.depth == level.depth + 1
           && levelMap[n].level.content == [Line("")]
           && level.content == InsertAt(t, WritePosition(t, Some(at)), LevelRef(n))
           && focus == Some(Caret(n, 0))
    }

    /** `outdent`: under the root, or without a parent, nothing changes;
        otherwise the trailing empty caret line is dropped and the caret
        goes to the line right after `level` in the parent, or, when a
        level or nothing follows, to a new empty line appended to the
        parent. */
    ghost predicate OutdentEffect(b: Before, level: Level, at: nat)
      requires at < |b.content|
      reads this, level, ParentFrame(level)
    {
      levelMap == b.levelMap && nextId == b.nextId && GetParent(level) == b.parent
      && var p := GetParent(level);
         if p.None? || p.value == b.root then
           level.content == b.content && focus == b.focus
           && (p.Some? ==> p.value.content == b.parentContent)
         else
           var pc := b.parentContent;
           var pos := b.position;
           level.content == DropEmptyTail(b.content, at)
           && if pos.Some? && pos.value + 1 < |pc| && pc[pos.value + 1].Line? then
                p.value.content == pc && focus == Some(Caret(p.value.id, pos.value + 1))
              else
                p.value.content == pc + [Line("")] && focus == Some(Caret(p.value.id, |pc|))
    }

    /** `splitHorz` outside columns: the trailing empty caret line is
        dropped; with a parent, one new level of the same depth is
        registered under it with the next id and written right after
        `level` in the parent's content, with the caret on its line; on the
        root nothing else changes. */
    ghost predicate SplitEffect(b: Before, level: Level, at: nat)
      requires at < |b.content|
      reads this, level, ParentFrame(level), Levels()
    {
      level.content == DropEmptyTail(b.content, at) && GetParent(level) == b.parent
      && if !Takes(Command.SplitHorizontal, b, at) then
           levelMap == b.levelMap && nextId == b.nextId && focus == b.focus
         else
           var p := GetParent(level).value;
           var pc := b.parentContent;
           var n := b.nextId;
           nextId == n + 1 && n !in b.levelMap && n in levelMap
           && levelMap == b.levelMap[n := levelMap[n]]
           && levelMap[n].parent == Some(p)
           && levelMap[n].level.depth == level.depth
           && levelMap[n].level.content == [Line("")]
           && p.content == InsertAt(pc, WritePosition(pc, b.position), LevelRef(n))
           && focus == Some(Caret(n, 0))
    }

    /** `erase`: when it takes the press the region is exactly one empty
        line holding the caret; otherwise nothing changes. */
    ghost predicate EraseEffect(b: Before, level: Level, at: nat)
      requires at < |b.content|
      reads this, level, ParentFrame(level)
    {
      levelMap == b.levelMap && nextId == b.nextId && ParentKept(b, level)
      && if Takes(Command.Erase, b, at) then
           level.content == [Line("")] && focus == Some(Caret(level.id, 0))
         else
           level.content == b.content && focus == b.focus
    }

    /** `moveUp`: `level` changes places with the node before it in the
        parent's content and keeps the caret; with nothing before it
        nothing changes. */
    ghost predicate MoveUpEffect(b: Before, level: Level, at: nat)
      requires Coherent(b)
      reads this, level, ParentFrame(level)
    {
      levelMap == b.levelMap && nextId == b.nextId && level.content == b.content
      && GetParent(level) == b.parent
      && var p := GetParent(level);
         var pos := b.position;
         if pos.Some? && pos.value > 0 then
           p.value.content == SwapNext(b.parentContent, pos.value - 1)
           && focus == Some(Caret(level.id, at))
         else
           (p.Some? ==> p.value.content == b.parentContent) && focus == b.focus
    }

    /** `moveDown`: the mirror of `moveUp`, with the node after `level`. */
    ghost predicate MoveDownEffect(b: Before, level: Level, at: nat)
      requires Coherent(b)
      reads this, level, ParentFrame(level)
    {
      levelMap == b.levelMap && nextId == b.nextId && level.content == b.content
      && GetParent(level) == b.parent
      && var p := GetParent(level);
         var pos := b.position;
         if pos.Some? && pos.value + 1 < |b.parentContent| then
           p.value.content == SwapNext(b.parentContent, pos.value)
           && focus == Some(Caret(level.id, at))
         else
           (p.Some? ==> p.value.content == b.parentContent) && focus == b.focus
    }

    /** `cursorUp`: when it takes the press the caret is at the end of the
        level right before `level`; the outline itself never changes. */
    ghost predicate CursorUpEffect(b: Before, level: Level, at: nat)
      requires at < |b.content|
      reads this, level, ParentFrame(level), Levels()
    {
      levelMap == b.levelMap && nextId == b.nextId
      && level.content == b.content && ParentKept(b, level)
      && if Takes(Command.CursorUp, b, at) then
           var prev := b.prev.value.id;
           Ordered(Tree(), nextId) && prev in Tree()
           && focus == Some(LastLeaf(Tree(), nextId, prev))
         else
           focus == b.focus
    }

    /** `cursorDown`: when it takes the press the caret is at the start of
        the level right after `level`; the outline itself never changes. */
    ghost predicate CursorDownEffect(b: Before, level: Level, at: nat)
      requires at < |b.content|
      reads this, level, ParentFrame(level), Levels()
    {
      levelMap == b.levelMap && nextId == b.nextId
      && level.content == b.content && ParentKept(b, level)
      && if Takes(Command.CursorDown, b, at) then
           var next := b.next.value.id;
           Ordered(Tree(), nextId) && next in Tree()
           && focus == Some(FirstLeaf(Tree(), nextId, next))
         else
           focus == b.focus
    }

    /** The effect of the command `cmd` names, from the state `b`; a
        command outside this model leaves everything as it was. */
    ghost predicate Effect(cmd: Command, b: Before, level: Level, at: nat)
      requires at < |b.content| && Coherent(b)
      reads this, level, ParentFrame(level), Levels()
    {
      if cmd.Indent? then IndentEffect(b, level, at)
      else if cmd.Outdent? then OutdentEffect(b, level, at)
      else if cmd.SplitHorizontal? then SplitEffect(b, level, at)
      else if cmd.Erase? then EraseEffect(b, level, at)
      else if cmd.MoveUp? then MoveUpEffect(b, level, at)
      else if cmd.MoveDown? then MoveDownEffect(b, level, at)
      else if cmd.CursorUp? then CursorUpEffect(b, level, at)
      else if cmd.CursorDown? then CursorDownEffect(b, level, at)
      else Untouched(b, level)
    }

    /** `indent`: an empty trailing caret line is dropped; if the caret
        node is followed by a level the caret moves into it, otherwise one
        new child level, one deeper, is written right after the caret node. */
    method Indent(level: Level, at: nat) returns (r: bool)
      requires Valid() && Registered(level) && at < |level.content|
      modifies this`levelMap, this`nextId, this`focus, level
      ensures Valid() && r
      ensures IndentEffect(old(Snap(level)), level, at)
      ensures nextId != old(nextId) ==> old(nextId) in levelMap && fresh(levelMap[old(nextId)].level)
    {
      var next: Option<ContentNode> := None;
      if at + 1 < |level.content| {
        next := Some(level.content[at + 1]);
      }
      DropCaretLine(level, at);
      if next.Some? && next.value.LevelRef? {
        assert RegionOk(levelMap[level.id].level);
        assert EntryOk(next.value.id);
        var target := levelMap[next.value.id].level;
        FocusStart(target);
      } else {
        assert EntryOk(level.id);
        WriteChild(level, at);
      }
      r := true;
    }

    /** The second half of `indent`: one new level, one deeper, registered
        under `level` with the next id and written after the caret node,
        with the caret on its line. */
    method WriteChild(level: Level, at: nat)
      requires Valid() && Registered(level)
      modifies this`levelMap, this`nextId, this`focus, level
      ensures Valid()
      ensures var n := old(nextId);
        var s := old(level.content);
        nextId == n + 1 && n !in old(levelMap) && n in levelMap
        && levelMap == old(levelMap)[n := levelMap[n]]
        && levelMap[n].parent == Some(level) && fresh(levelMap[n].level)
        && levelMap[n].level.depth == level.depth + 1
        && levelMap[n].level.content == [Line("")]
        && level.content == InsertAt(s, WritePosition(s, Some(at)), LevelRef(n))
        && focus == Some(Caret(n, 0))
    {
      label Pre:
      var child := MakeChildLevel(level);
      level.Write(LevelRef(child.id), Some(at));
      assert forall id :: id in old(levelMap) ==> id < old(nextId) by {
        forall id | id in old(levelMap) ensures id < old(nextId) {
          assert old(EntryOk(id));
        }
      }
      AddsChild@Pre(level, child);
      FocusStart(child);
    }

    /** `outdent`: nothing happens under the root or a level without a
        parent; otherwise an empty trailing caret line is dropped and the
        caret moves to the line after the level in its parent, or, when no
        line follows it, to a new empty line appended to the parent. */
    method Outdent(level: Level, at: nat) returns (r: bool)
      requires Valid() && Registered(level) && at < |level.content|
      modifies this`focus, level, ParentFrame(level)
      ensures Valid() && r
      ensures OutdentEffect(old(Snap(level)), level, at)
    {
      var parent := GetParent(level);
      if parent.None? || parent.value == rootLevel {
        return true;
      }
      var p := parent.value;
      assert EntryOk(level.id);
      assert p != level;
      ghost var pos0 := Position(level);
      DropCaretLine(level, at);
      assert Position(level) == pos0 && p.content == old(p.content);
      StepOut(level, p);
      r := true;
    }

    /** The end of `outdent`: the caret moves to the line right after
        `level` in its parent `p`; when a level or nothing follows, an empty
        line is appended to `p` and the caret goes to the end of `p`. */
    method StepOut(level: Level, p: Level)
      requires Valid() && Registered(level) && GetParent(level) == Some(p)
      modifies this`focus, p
      ensures Valid()
      ensures levelMap == old(levelMap) && nextId == old(nextId)
      ensures var pc := old(p.content);
        var pos := old(Position(level));
        if pos.Some? && pos.value + 1 < |pc| && pc[pos.value + 1].Line? then
          p.content == pc && focus == Some(Caret(p.id, pos.value + 1))
        else
          p.content == pc + [Line("")] && focus == Some(Caret(p.id, |pc|))
    {
      Placed(level);
      var pos := Position(level);
      if pos.Some? && pos.value + 1 < |p.content| && p.content[pos.value + 1].Line? {
        focus := Some(Caret(p.id, pos.value + 1));
        KeepsValid(p);
      } else {
        p.Write(Line(""), None);
        KeepsValid(p);
        FocusEnd(p);
      }
    }

    /** `splitHorz` outside columns: an empty trailing caret line is
        dropped; then a new level of the same depth is registered under the
        parent and written right after `level` in the parent's content, and
        gets the caret. The root has no parent: the source throws when it
        calls `makeChildLevel(null)`, which the model reports as `false`
        after the line removal. */
    method SplitHorz(level: Level, at: nat) returns (r: bool)
      requires Valid() && Registered(level) && at < |level.content|
      modifies this`levelMap, this`nextId, this`focus, level, ParentFrame(level)
      ensures Valid()
      ensures r == Takes(Command.SplitHorizontal, old(Snap(level)), at)
      ensures SplitEffect(old(Snap(level)), level, at)
      ensures nextId != old(nextId) ==> old(nextId) in levelMap && fresh(levelMap[old(nextId)].level)
    {
      var parent := GetParent(level);
      assert EntryOk(level.id);
      DropCaretLine(level, at);
      if parent.None? {
        return false;
      }
      var p := parent.value;
      var pos := Position(level);
      label Pre:
      var sibling := MakeChildLevel(p);
      p.Write(LevelRef(sibling.id), pos);
      assert forall id :: id in old(levelMap) ==> id < old(nextId) by {
        forall id | id in old(levelMap) ensures id < old(nextId) {
          assert old(EntryOk(id));
        }
      }
      AddsChild@Pre(p, sibling);
      FocusStart(sibling);
      r := true;
    }

    /** `erase`: only a region of exactly one node whose text is at most one
        character long is reset, to exactly one empty line holding the
        caret; otherwise nothing changes and the key press goes on. */
    method Erase(level: Level, at: nat) returns (r: bool)
      requires Valid() && Registered(level) && at < |level.content|
      modifies this`focus, level
      ensures Valid()
      ensures r == Takes(Command.Erase, old(Snap(level)), at)
      ensures EraseEffect(old(Snap(level)), level, at)
    {
      assert EntryOk(level.id);
      if |level.content| == 1 && IsShortLine(level.content[at]) {
        level.Clear();
        level.Write(Line(""), None);
        KeepsValid(level);
        FocusStart(level);
        return true;
      }
      return false;
    }

    /** `moveUp`: the level changes places with the node before it in the
        parent's content and keeps the caret; with nothing before it, or no
        parent, nothing changes. The key press is handled either way. */
    method MoveUp(level: Level, at: nat) returns (r: bool)
      requires Valid() && Registered(level) && at < |level.content|
      modifies this`focus, ParentFrame(level)
      ensures Valid() && r
      ensures MoveUpEffect(old(Snap(level)), level, at)
    {
      assert EntryOk(level.id);
      var pos := Position(level);
      if pos.None? || pos.value == 0 {
        return true;
      }
      var p := GetParent(level).value;
      Placed(level);
      focus := Some(Caret(level.id, at));
      p.SwapChildren(pos.value - 1);
      KeepsValid(p);
      r := true;
    }

    /** `moveDown`: the level changes places with the node after it in the
        parent's content and keeps the caret; with nothing after it, or no
        parent, nothing changes. The key press is handled either way. */
    method MoveDown(level: Level, at: nat) returns (r: bool)
      requires Valid() && Registered(level) && at < |level.content|
      modifies this`focus, ParentFrame(level)
      ensures Valid() && r
      ensures MoveDownEffect(old(Snap(level)), level, at)
    {
      assert EntryOk(level.id);
      var pos := Position(level);
      if pos.None? {
        return true;
      }
      var p := GetParent(level).value;
      if pos.value + 1 >= |p.content| {
        return true;
      }
      Placed(level);
      focus := Some(Caret(level.id, at));
      p.SwapChildren(pos.value);
      KeepsValid(p);
      r := true;
    }

    /** The node before `level` in its parent's content, if any. */
    function PrevSibling(level: Level): (r: Option<ContentNode>)
      reads this`levelMap, ParentFrame(level)
      ensures r.Some? ==> Position(level).Some? && Position(level).value > 0
                          && r.value == GetParent(level).value.content[Position(level).value - 1]
      ensures r.None? ==> Position(level).None? || Position(level).value == 0
    {
      match Position(level)
      case None => None
      case Some(q) => if q > 0 then Some(GetParent(level).value.content[q - 1]) else None
    }

    /** The node after `level` in its parent's content, if any. */
    function NextSibling(level: Level): (r: Option<ContentNode>)
      reads this`levelMap, ParentFrame(level)
      ensures r.Some? ==> Position(level).Some?
                          && Position(level).value + 1 < |GetParent(level).value.content|
                          && r.value == GetParent(level).value.content[Position(level).value + 1]
      ensures r.None? ==> Position(level).None?
                          || Position(level).value + 1 == |GetParent(level).value.content|
    {
      match Position(level)
      case None => None
      case Some(q) =>
        var pc := GetParent(level).value.content;
        if q + 1 < |pc| then Some(pc[q + 1]) else None
    }

    /** `cursorUp`: from the first node of its region the caret moves to
        the end of the level right before this one; in every other case the
        key press goes on and nothing changes. */
    method CursorUp(level: Level, at: nat) returns (r: bool)
      requires Valid() && Registered(level) && at < |level.content|
      modifies this`focus
      ensures Valid()
      ensures r == Takes(Command.CursorUp, old(Snap(level)), at)
      ensures CursorUpEffect(old(Snap(level)), level, at)
    {
      var prev := PrevSibling(level);
      if prev.Some? && prev.value.LevelRef? && at == 0 {
        var p := GetParent(level).value;
        Placed(level);
        assert RegionOk(levelMap[p.id].level);
        assert EntryOk(prev.value.id);
        FocusEnd(levelMap[prev.value.id].level);
        return true;
      }
      return false;
    }

    /** `cursorDown`: from the last node of its region the caret moves to
        the start of the level right after this one; in every other case
        the key press goes on and nothing changes. */
    method CursorDown(level: Level, at: nat) returns (r: bool)
      requires Valid() && Registered(level) && at < |level.content|
      modifies this`focus
      ensures Valid()
      ensures r == Takes(Command.CursorDown, old(Snap(level)), at)
      ensures CursorDownEffect(old(Snap(level)), level, at)
    {
      var next := NextSibling(level);
      if next.Some? && next.value.LevelRef? && at == |level.content| - 1 {
        var p := GetParent(level).value;
        Placed(level);
        assert RegionOk(levelMap[p.id].level);
        assert EntryOk(next.value.id);
        FocusStart(levelMap[next.value.id].level);
        return true;
      }
      return false;
    }

    /** The command a binding names, run on the level under the caret. A
        command that declines leaves the registry and the caret as they
        were; the commands outside this model (`splitVert`, `evalHTML`,
        `evalJS`, `pushJS`, `sendJSON*`, `fetchURL`) report the press as
        handled, as their source does, and change nothing here. */
    method Run(cmd: Command, level: Level, at: nat) returns (done: bool)
      requires Valid() && Registered(level) && at < |level.content|
      modifies this`levelMap, this`nextId, this`focus, level, ParentFrame(level)
      ensures Valid()
      ensures forall id :: id in levelMap && id !in old(levelMap) ==> fresh(levelMap[id].level)
      ensures done == Takes(cmd, old(Snap(level)), at)
      ensures Effect(cmd, old(Snap(level)), level, at)
      ensures !done ==>
        levelMap == old(levelMap) && nextId == old(nextId) && focus == old(focus)
        && level.content == (if cmd == SplitHorizontal then DropEmptyTail(old(level.content), at)
                             else old(level.content))
        && forall p :: p in old(ParentFrame(level)) ==> p.content == old(p.content)
      ensures !Structural(cmd) ==>
        unchanged(this) && unchanged(level) && unchanged(old(ParentFrame(level)))
    {
      if cmd.Indent? {
        done := Indent(level, at);
      } else if cmd.Outdent? {
        done := Outdent(level, at);
      } else if cmd.SplitHorizontal? {
        done := SplitHorz(level, at);
      } else if cmd.Erase? {
        done := Erase(level, at);
      } else if cmd.CursorUp? {
        done := CursorUp(level, at);
      } else if cmd.CursorDown? {
        done := CursorDown(level, at);
      } else if cmd.MoveUp? {
        done := MoveUp(level, at);
      } else if cmd.MoveDown? {
        done := MoveDown(level, at);
      } else {
        done := true;
      }
    }

    /** `onKeyDown`: the level under the caret is looked up by id, and a
        press on no registered level is let through; then the chords of the
        table are tried in order (`FirstAccepted`) and the command of the
        first that accepts the press is run. A command that declines lets
        the `||` chain go on, but no later chord accepts the press
        (`NoLaterMatch`), so the remaining `is` calls change nothing. */
    method OnKeyDown(ev: KeyEvent, levelId: nat, at: nat) returns (r: Verdict)
      requires Valid()
      requires levelId in levelMap ==> at < |levelMap[levelId].level.content|
      modifies this`levelMap, this`nextId, this`focus, Levels()
      ensures Valid()
      ensures forall id :: id in levelMap && id !in old(levelMap) ==> fresh(levelMap[id].level)
      ensures r == NoLevel <==> levelId !in old(levelMap)
      ensures r == NoLevel || FirstMatch(ev, 0).None? ==>
        unchanged(this) && unchanged(old(Levels()))
      ensures FirstMatch(ev, 0).None? ==> !r.Handled?
      ensures levelId in old(levelMap) && FirstMatch(ev, 0).Some? ==>
        var c := Table[FirstMatch(ev, 0).value].command;
        var level := old(levelMap[levelId].level);
        (r == Handled(c) <==> Takes(c, old(Snap(level)), at))
        && (r != Handled(c) ==> r == Passed)
        && Effect(c, old(Snap(level)), level, at)
      ensures r == Passed ==> levelMap == old(levelMap) && nextId == old(nextId) && focus == old(focus)
      ensures levelId in old(levelMap) ==>
        var level := old(levelMap[levelId].level);
        forall l :: l in old(Levels()) && l != level && l !in old(ParentFrame(level)) ==> unchanged(l)
    {
      var found := GetLevel(levelId);
      if found.None? {
        return NoLevel;
      }
      var level := found.value;
      assert EntryOk(levelId);
      assert ParentFrame(level) <= Levels() by {
        assert EntryOk(level.id);
      }
      r := Press(ev, level, at);
    }

    /** The `||` chain of `onKeyDown` on a registered level. */
    method Press(ev: KeyEvent, level: Level, at: nat) returns (r: Verdict)
      requires Valid() && Registered(level) && at < |level.content|
      modifies this`levelMap, this`nextId, this`focus, level, ParentFrame(level)
      ensures Valid() && r != NoLevel
      ensures forall id :: id in levelMap && id !in old(levelMap) ==> fresh(levelMap[id].level)
      ensures FirstMatch(ev, 0).None? ==>
        r == Passed && unchanged(this) && unchanged(level) && unchanged(old(ParentFrame(level)))
      ensures FirstMatch(ev, 0).Some? ==>
        var c := Table[FirstMatch(ev, 0).value].command;
        (r == Handled(c) <==> Takes(c, old(Snap(level)), at))
        && (r != Handled(c) ==> r == Passed)
        && Effect(c, old(Snap(level)), level, at)
      ensures r == Passed ==> levelMap == old(levelMap) && nextId == old(nextId) && focus == old(focus)
    {
      ghost var b := Snap(level);
      label Scan:
      var m, _ := FirstAccepted(ev);
      KeepsValid@Scan(level);
      assert Snap(level) == b;
      r := Dispatch(m, level, at);
      if r == Passed && m.Some? {
        NoLaterMatch(ev, m.value);
      }
    }

    /** The command of binding `m`, if any, run on the level under the
        caret: a command that reports the press handled is the outcome,
        and otherwise the press is let through. */
    method Dispatch(m: Option<nat>, level: Level, at: nat) returns (r: Verdict)
      requires Valid() && Registered(level) && at < |level.content|
      requires m.Some? ==> m.value < |Table|
      modifies this`levelMap, this`nextId, this`focus, level, ParentFrame(level)
      ensures Valid() && r != NoLevel
      ensures forall id :: id in levelMap && id !in old(levelMap) ==> fresh(levelMap[id].level)
      ensures m.None? ==>
        r == Passed && unchanged(this) && unchanged(level) && unchanged(old(ParentFrame(level)))
      ensures m.Some? ==>
        var c := Table[m.value].command;
        (r == Handled(c) <==> Takes(c, old(Snap(level)), at))
        && (r != Handled(c) ==> r == Passed)
        && Effect(c, old(Snap(level)), level, at)
      ensures r == Passed ==> levelMap == old(levelMap) && nextId == old(nextId) && focus == old(focus)
    {
      if m.None? {
        return Passed;
      }
      var c := Table[m.value].command;
      var done := Run(c, level, at);
      if done {
        return Handled(c);
      }
      return Passed;
    }

    /** The two levels the page starts with form a valid registry. */
    lemma InitialValid()
      requires rootLevel != null && firstLevel != null && nextId == 2
      requires rootLevel.id == 0 && rootLevel.depth == -1 && rootLevel.content == [LevelRef(1)]
      requires firstLevel.id == 1 && firstLevel.depth == 0 && firstLevel.content == [Line("")]
      requires levelMap == map[0 := Entry(rootLevel, None), 1 := Entry(firstLevel, Some(rootLevel))]
      ensures Valid()
    {
      assert EntryOk(0) && EntryOk(1);
      assert RegionOk(levelMap[0].level) && RegionOk(levelMap[1].level);
    }

    /** The editor as the page builds it: the root (id 0, depth -1) holds
        exactly the first level (id 1, depth 0), which holds one empty line
        and has the caret. */
    constructor ()
      ensures Valid()
      ensures rootLevel.id == 0 && firstLevel.id == 1 && nextId == 2
      ensures levelMap == map[0 := Entry(rootLevel, None), 1 := Entry(firstLevel, Some(rootLevel))]
      ensures rootLevel.depth == -1 && firstLevel.depth == 0
      ensures rootLevel.content == [LevelRef(1)] && firstLevel.content == [Line("")]
      ensures focus == Some(Caret(1, 0))
      ensures fresh(rootLevel) && fresh(firstLevel)
    {
      levelMap := map[];
      nextId := 0;
      rootLevel := null;
      firstLevel := null;
      focus := None;
      new;
      var root := MakeRootLevel();
      rootLevel := root;
      var first := MakeChildLevel(root);
      firstLevel := first;
      assert levelMap == map[0 := Entry(root, None), 1 := Entry(first, Some(root))];
      root.Write(LevelRef(first.id), None);
      assert root.content == [LevelRef(1)];
      InitialValid();
      FocusStart(first);
    }
  }
}
