/** The outline as a value: each level id mapped to its content region.
    The caret descent of `Level.focusStart` and `Level.focusEnd` (main.js)
    is defined on it. */
module Outline {
  import opened Regions

  type Tree = map<nat, seq<ContentNode>>

  /** A caret position: the child `index` of the content of level `level`. */
  datatype Caret = Caret(level: nat, index: nat)

  /** Ids are below `bound`, no region is empty, and every level element in
      a region names a level of the tree created after the one holding it. */
  predicate Ordered(t: Tree, bound: nat) {
    forall id :: id in t ==>
      id < bound && |t[id]| >= 1
      && forall k :: 0 <= k < |t[id]| && t[id][k].LevelRef? ==>
           t[id][k].id in t && t[id][k].id > id
  }

  /** `focusStart`: from the first child, down through first children that
      are levels, to a line. */
  function FirstLeaf(t: Tree, bound: nat, id: nat): (c: Caret)
    requires Ordered(t, bound) && id in t
    decreases bound - id
    ensures c.level in t && c.level >= id && c.index == 0
    ensures t[c.level][0].Line?
    ensures t[id][0].Line? ==> c == Caret(id, 0)
  {
    match t[id][0]
    case Line(_) => Caret(id, 0)
    case LevelRef(child) => FirstLeaf(t, bound, child)
  }

  /** `focusEnd`: from the last child, down through last children that are
      levels, to a line. */
  function LastLeaf(t: Tree, bound: nat, id: nat): (c: Caret)
    requires Ordered(t, bound) && id in t
    decreases bound - id
    ensures c.level in t && c.level >= id && c.index == |t[c.level]| - 1
    ensures t[c.level][c.index].Line?
    ensures t[id][|t[id]| - 1].Line? ==> c == Caret(id, |t[id]| - 1)
  {
    match t[id][|t[id]| - 1]
    case Line(_) => Caret(id, |t[id]| - 1)
    case LevelRef(child) => LastLeaf(t, bound, child)
  }
}
