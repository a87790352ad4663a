/** The content region of a level, seen as a sequence of nodes, and the
    sequence edits the editor performs on it (main.js, `Level.write`,
    `Level.overwrite`, the trailing-empty-line removal and the sibling swaps
    of `moveUp`/`moveDown`). A node's identity is its position. */
module Regions {
  import opened Wrappers

  /** A child of a `.content` element: a line of text (a `<div>`), or the
      element of a nested level, known by its `data-id`. */
  datatype ContentNode = Line(text: string) | LevelRef(id: nat)

  /** `textContent.length === 0`: only a line holding no text. A level
      element always holds its handle, the text `::`, so it is never
      empty. */
  predicate IsEmptyLine(n: ContentNode) {
    n.Line? && n.text == ""
  }

  /** JavaScript's `length` of a string: the number of UTF-16 code units,
      two for a character outside the Basic Multilingual Plane. */
  function Utf16Length(s: string): (r: nat)
    ensures |s| <= r <= 2 * |s|
  {
    if |s| == 0 then 0
    else (if s[0] >= '\U{10000}' then 2 else 1) + Utf16Length(s[1..])
  }

  /** `textContent.length <= 1`, which again only a line can satisfy. */
  predicate IsShortLine(n: ContentNode) {
    n.Line? && Utf16Length(n.text) <= 1
  }

  /** A line is short exactly when it is empty or is one character of the
      Basic Multilingual Plane. */
  lemma {:induction false} ShortLineChars(t: string)
    ensures IsShortLine(Line(t)) <==> |t| == 0 || (|t| == 1 && t[0] < '\U{10000}')
  {
    if |t| > 0 {
      assert Utf16Length(t) == (if t[0] >= '\U{10000}' then 2 else 1) + Utf16Length(t[1..]);
    }
  }

  /** A line holding one character outside the Basic Multilingual Plane is
      two code units long, so it is not short. */
  lemma AstralLineNotShort()
    ensures !IsShortLine(Line("\U{1F600}"))
  {
    ShortLineChars("\U{1F600}");
  }

  /** `x` inserted so that it ends up at index `q`. */
  function InsertAt(s: seq<ContentNode>, q: nat, x: ContentNode): (r: seq<ContentNode>)
    requires q <= |s|
    ensures |r| == |s| + 1 && r[q] == x
    ensures forall k :: 0 <= k < q ==> r[k] == s[k]
    ensures forall k :: q < k < |r| ==> r[k] == s[k - 1]
    ensures multiset(r) == multiset(s) + multiset{x}
    ensures forall y :: y in r <==> y == x || y in s
  {
    assert s == s[..q] + s[q..];
    s[..q] + [x] + s[q..]
  }

  /** Inserting at the end is appending. */
  lemma InsertAtEnd(s: seq<ContentNode>, x: ContentNode)
    ensures InsertAt(s, |s|, x) == s + [x]
  {
  }

  /** The node at `q` taken out (`remove()`). */
  function RemoveAt(s: seq<ContentNode>, q: nat): (r: seq<ContentNode>)
    requires q < |s|
    ensures |r| == |s| - 1
    ensures forall k :: 0 <= k < q ==> r[k] == s[k]
    ensures forall k :: q <= k < |r| ==> r[k] == s[k + 1]
    ensures multiset(r) == multiset(s) - multiset{s[q]}
    ensures forall y :: y in r ==> y in s
    ensures forall y :: y in s && y != s[q] ==> y in r
  {
    assert s == s[..q] + [s[q]] + s[q + 1..];
    s[..q] + s[q + 1..]
  }

  /** Removing what was just inserted gives the region back. */
  lemma RemoveInserted(s: seq<ContentNode>, q: nat, x: ContentNode)
    requires q <= |s|
    ensures RemoveAt(InsertAt(s, q, x), q) == s
  {
  }

  /** Where `write(el, preceder)` puts `el`. With no preceder it appends
      after the last child; with a preceder in the region it goes right after
      it; a preceder no longer in the region has no next sibling, so
      `insertBefore(el, null)` appends as well. */
  function WritePosition(s: seq<ContentNode>, preceder: Option<nat>): (q: nat)
    ensures q <= |s|
    ensures preceder.Some? && preceder.value < |s| ==> q == preceder.value + 1
    ensures preceder.None? || preceder.value >= |s| ==> q == |s|
  {
    match preceder
    case None => |s|
    case Some(p) => if p < |s| then p + 1 else |s|
  }

  /** The region after `overwrite(el, target)`: `el` written after the
      target, then the target removed. */
  function Overwritten(s: seq<ContentNode>, el: ContentNode, target: Option<nat>): (r: seq<ContentNode>)
    ensures target.Some? && target.value < |s| ==>
              |r| == |s| && r[target.value] == el
              && forall k :: 0 <= k < |s| && k != target.value ==> r[k] == s[k]
    ensures target.None? || target.value >= |s| ==> r == s + [el]
  {
    var q := WritePosition(s, target);
    var w := InsertAt(s, q, el);
    if target.Some? && target.value < |s| then RemoveAt(w, target.value) else w
  }

  /** The trailing-empty-line rule shared by `indent`, `outdent` and
      `splitHorz`: the caret node is removed only when it is an empty line,
      the last node, and not the only one. */
  predicate DropsCaretLine(s: seq<ContentNode>, at: nat)
    requires at < |s|
  {
    IsEmptyLine(s[at]) && at == |s| - 1 && |s| > 1
  }

  function DropEmptyTail(s: seq<ContentNode>, at: nat): (r: seq<ContentNode>)
    requires at < |s|
    ensures DropsCaretLine(s, at) ==> r == s[..at] && |r| >= 1
    ensures !DropsCaretLine(s, at) ==> r == s
    ensures forall y: ContentNode :: y.LevelRef? ==> (y in r <==> y in s)
  {
    if DropsCaretLine(s, at) then RemoveAt(s, at) else s
  }

  /** The first position holding `x`: a node's `nextSibling` and
      `previousSibling` are found from where it sits. */
  function IndexOf(s: seq<ContentNode>, x: ContentNode): (r: Option<nat>)
    ensures r.Some? ==> r.value < |s| && s[r.value] == x
    ensures r.Some? ==> forall k :: 0 <= k < r.value ==> s[k] != x
    ensures r.None? ==> x !in s
  {
    if |s| == 0 then None
    else if s[0] == x then Some(0)
    else match IndexOf(s[1..], x)
      case None => None
      case Some(k) => Some(k + 1)
  }

  /** The nodes at `q` and `q + 1` exchanged (`insertBefore` of one before
      the other); nothing else moves. */
  function SwapNext(s: seq<ContentNode>, q: nat): (r: seq<ContentNode>)
    requires q + 1 < |s|
    ensures |r| == |s| && r[q] == s[q + 1] && r[q + 1] == s[q]
    ensures forall k :: 0 <= k < |s| && k != q && k != q + 1 ==> r[k] == s[k]
    ensures multiset(r) == multiset(s)
    ensures forall y :: y in r <==> y in s
  {
    var r := s[q := s[q + 1]][q + 1 := s[q]];
    assert r == s[..q] + [s[q + 1], s[q]] + s[q + 2..];
    assert s == s[..q] + [s[q], s[q + 1]] + s[q + 2..];
    r
  }

  /** Swapping twice restores the region. */
  lemma SwapTwice(s: seq<ContentNode>, q: nat)
    requires q + 1 < |s|
    ensures SwapNext(SwapNext(s, q), q) == s
  {
  }
}
