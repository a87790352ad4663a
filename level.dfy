/** A level of the outline (main.js, class `Level`): an id, a depth and a
    content region whose children the editor rewrites in place. */
module Levels {
  import opened Wrappers
  import opened Regions

  class Level {
    const id: nat
    const depth: int
    var content: seq<ContentNode>

    /** A fresh level holds one empty line, as `$Level` builds it. The id is
        the counter value the editor drew for it. */
    constructor (id: nat, depth: int)
      ensures this.id == id && this.depth == depth
      ensures content == [Line("")]
    {
      this.id := id;
      this.depth := depth;
      content := [Line("")];
    }

    /** `write(el, preceder)`: with no preceder `el` follows the last child;
        otherwise it is placed right after the preceder. */
    method Write(el: ContentNode, preceder: Option<nat>)
      modifies this
      ensures content == InsertAt(old(content), WritePosition(old(content), preceder), el)
      ensures preceder.None? ==> content == old(content) + [el]
    {
      InsertAtEnd(content, el);
      var p := preceder;
      if p.None? && |content| > 0 {
        p := Some(|content| - 1);
      }
      if p.None? || p.value == |content| - 1 {
        content := content + [el];
      } else if p.value < |content| {
        content := InsertAt(content, p.value + 1, el);
      } else {
        // a preceder no longer in the region has no next sibling
        content := content + [el];
      }
    }

    /** `remove()` of the child at `q`. */
    method Remove(q: nat)
      requires q < |content|
      modifies this
      ensures content == RemoveAt(old(content), q)
    {
      content := RemoveAt(content, q);
    }

    /** `overwrite(el, target)`: `el` written after the target, which is
        then removed, so `el` takes the target's place. */
    method Overwrite(el: ContentNode, target: Option<nat>)
      modifies this
      ensures content == Overwritten(old(content), el, target)
    {
      var n := |content|;
      Write(el, target);
      if target.Some? && target.value < n {
        Remove(target.value);
      }
    }

    /** `clear()`: children are removed from the end until none is left. */
    method Clear()
      modifies this
      ensures content == []
    {
      while |content| > 0
        invariant content == old(content)[..|content|]
        decreases |content|
      {
        content := content[..|content| - 1];
      }
    }

    /** `insertBefore` of the child at `q + 1` before the child at `q`. */
    method SwapChildren(q: nat)
      requires q + 1 < |content|
      modifies this
      ensures content == SwapNext(old(content), q)
    {
      content := SwapNext(content, q);
    }
  }
}
