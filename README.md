# divedit outline editor: a Dafny model

divedit is a browser outline editor. The page holds a tree of *levels*.
Each level is a box with an id, a depth and a content region whose children
are lines of text and nested levels. Keyboard chords restructure the tree:

- indent and outdent;
- split a level;
- erase a level;
- move a level among its siblings;
- move the caret into a neighbouring level.

This project models the two parts of the editor that carry logic:

- **The level tree engine of `main.js`.**
  - `Levels.Level` is the `Level` class. Its content region is a
    `seq<ContentNode>`, where a node is `Line(text)` or `LevelRef(id)`.
    `Write`, `Overwrite`, `Clear`, and the `remove`/`insertBefore` calls the
    commands make, all edit that sequence in place.
  - `Editing.Editor` is the `Editor` class. It holds:
    - the registry `levelMap` (id to level and parent);
    - the id counter `nextId`;
    - the root and first levels;
    - a ghost `focus`, the caret as a (level id, child index) pair.

    The registry invariant `Valid` says:
    - every entry names its own id, below the counter;
    - a child is one level deeper than its parent and was created after it;
    - a child appears in its parent's content;
    - every level element in a region is a registered child of that region's level;
    - no region is empty.

    Every modelled command keeps `Valid`. Each structural command also
    promises an effect predicate (`IndentEffect`, `OutdentEffect`,
    `SplitEffect`, `EraseEffect`, `MoveUpEffect`, `MoveDownEffect`,
    `CursorUpEffect`, `CursorDownEffect`). It relates the new state to a
    snapshot `Before` of the state the command started from (`Snap`).
    `Effect` picks the command's predicate, and the dispatch carries it
    through to `OnKeyDown`, which also leaves every level other than the
    caret's level and its parent unchanged. So a press reported as
    `Handled(c)` did exactly what `c` does.
  - `Outline` views the registry as a map from id to region and defines the
    caret descent of `focusStart`/`focusEnd` on it.
  - `Bindings` holds the chord table of `onKeyDown`.
  - `Editing.Editor.OnKeyDown` is the first-match dispatch.
  - `Sandbox` is the `write`/`cancel` accumulator of `_evalJS`.
  - `Scenarios` builds a new editor and presses keys on it through
    `OnKeyDown`, as the page does, and states the outline that results.
- **The chord matcher `keystroke(ev).is(chord)` of `util.js`** (`Keys`).
  `Accepts` is its reference definition over the normalised tokens of the
  chord. `Keystroke.Is` is the token loop itself, proved equal to it.
  `Units` models the `px`/`pc`/`em` formatters.

Modelling choices:

- **Node identity.** A node is known by its position in its region.
  `write(el, preceder)` takes the preceder as an index. A preceder that is
  no longer in the region has no next sibling, so `insertBefore(el, null)`
  appends; the model appends in that case.
- **Elements and nodes.** Every node of a region is an element: a line is
  a line element, a level is a level box. The model has no bare text node
  between them. So the element count `$content.children.length` of
  indent, outdent and split (main.js:139, 162, 204) and the node count
  `$content.childNodes.length` of erase (main.js:272) are the same number,
  the length of the content sequence (`DropEmptyTail`, `Takes`).
- **Text length.** A level element's `textContent` always contains its
  handle text `::`. So a level node is never "empty" (indent, outdent,
  split) and never "at most one character" (erase). A line's length is
  JavaScript's, in UTF-16 code units (`Utf16Length`): a character outside
  the Basic Multilingual Plane counts twice.
- **The counter.** `Level._nextId` is a static counter that starts at 0.
  There is one editor per page, so the model keeps the counter in the
  editor.
- **The caret.** The caret's place (the `$selRoot` node) is a parameter
  `at`, the index of the caret node in the level's content. The level
  under the caret is a parameter `levelId`. `window.getSelection()` is not
  modelled.

Two behaviours of the code the model follows:

- **The root can hold more than one child.** The constructor leaves the
  root holding only the first level (main.js:49-52). But `splitHorz` on a
  top-level level writes a sibling into the root's content
  (main.js:208-209). So the model does not claim that the root keeps one
  child.
- **`splitHorz` on the root declines.** The root has no parent. So
  `splitHorz` on it calls `makeChildLevel(null)` after dropping the caret
  line, and that throws at main.js:74. The model drops the line, returns
  `false` and changes nothing else. A thrown handler and a `false` result
  look the same from outside: the key press is not prevented.

## Model

| member | source | states |
|---|---|---|
| Levels.Level.constructor | main.js:501-514 | a new level has the given id and depth and one empty line |
| Levels.Level.Write | main.js:516-530 | the element is inserted at `WritePosition`: appended without a preceder, right after a preceder in the region; every other node keeps its order |
| Levels.Level.Remove | main.js:535 | the node at the index is taken out |
| Levels.Level.Overwrite | main.js:532-537 | the content becomes `Overwritten`: the element takes the target's place, the region keeps its length, and every other node keeps its index |
| Levels.Level.Clear | main.js:539-543 | the loop removes last children until the content is empty |
| Levels.Level.SwapChildren | main.js:288 | the nodes at `q` and `q+1` change places and nothing else moves |
| Regions.Utf16Length | main.js:272 | `length` of a string: between its number of characters and twice that |
| Regions.ShortLineChars | main.js:272 | a line passes the `length <= 1` test exactly when it is empty or one character of the Basic Multilingual Plane |
| Regions.AstralLineNotShort | main.js:272 | a line holding one character outside the Basic Multilingual Plane fails the test, so `erase` declines on it |
| Regions.InsertAt | main.js:524-529 | the result is one longer, has `x` at `q`, and has the old nodes before and after it in order; the multiset gains exactly `x` |
| Regions.InsertAtEnd | main.js:525 | inserting at the end is `appendChild` |
| Regions.RemoveAt | main.js:535 | the result is one shorter, the old nodes around `q` are kept in order, and the multiset loses exactly `s[q]` |
| Regions.RemoveInserted | main.js:532-537 | removing the node just inserted restores the region |
| Regions.WritePosition | main.js:516-529 | no preceder, or a detached one, means the end; a preceder at `p` in the region means `p+1` |
| Regions.Overwritten | main.js:532-537 | with the target in the region: same length, `el` at the target's index, all other nodes unchanged; otherwise `el` is appended |
| Regions.DropEmptyTail | main.js:139-141 | the caret node goes only when it is an empty line, the last node, and not the only node; no level element is lost |
| Regions.IndexOf | main.js:284 | the first index holding the node, and none when the node is absent |
| Regions.SwapNext | main.js:288 | two neighbours exchanged, every other index unchanged, the same multiset and membership |
| Regions.SwapTwice | main.js:282-302 | `moveDown` after `moveUp` restores the parent's content |
| Outline.FirstLeaf | main.js:568-574 | descent ends on a line at index 0 of the level itself or of a later-created one, and stops at once when the first child is a line |
| Outline.LastLeaf | main.js:576-582 | the same descent through last children, ending on the last child of a region |
| Editing.Editor.NextId | main.js:494-499 | returns the counter and bumps it by exactly one |
| Editing.Editor.MakeRootLevel | main.js:58-71 | a fresh level of depth -1 with the next id, registered with no parent, whose initial line is removed; no other entry changes |
| Editing.Editor.MakeChildLevel | main.js:73-84 | a fresh level one deeper than the parent, with the next id, registered under the parent; no other entry changes |
| Editing.Editor.GetParent | main.js:86-91 | the recorded parent, and none for an unregistered id |
| Editing.Editor.GetLevel | main.js:93-98 | a level exactly when the id is registered, and then the level registered under it |
| Editing.Editor.GetLevelFinds | main.js:93-98 | in a valid registry the level found under an id is registered and carries that id |
| Editing.Editor.Valid | main.js:58-98 | the registry invariant: every entry names its own id below the counter, a child is one deeper than its parent, was created after it and sits in its content, every level element of a region is a registered child, and no region is empty |
| Editing.Editor.TreeOrdered | main.js:73-84 | in a valid registry, every level element in a region names a level created after the region's level, so descents end |
| Editing.Editor.FirstLeafOf | main.js:568-572 | the `while (isLevelEl)` loop reaches `Outline.FirstLeaf` |
| Editing.Editor.LastLeafOf | main.js:576-580 | the loop reaches `Outline.LastLeaf` |
| Editing.Editor.FocusStart | main.js:568-574 | the caret is put on the first leaf; the registry stays valid |
| Editing.Editor.FocusEnd | main.js:576-582 | the caret is put on the last leaf; the registry stays valid |
| Editing.Editor.Position | main.js:284 | where the level's element sits in its parent's content |
| Editing.Editor.Placed | main.js:73-84 | a registered level with a parent has a position in that parent |
| Editing.Editor.KeepsValid | main.js:288 | rewriting one region without losing or adding level elements keeps the registry valid |
| Editing.Editor.AddsChild | main.js:147-148 | registering a fresh child and writing its element into the parent keeps the registry valid |
| Editing.Editor.DropCaretLine | main.js:139-141 | the caret line is dropped exactly as `DropEmptyTail` says, and the registry stays valid |
| Editing.Editor.Indent | main.js:135-153 | `IndentEffect` from the starting snapshot: with a level right after the caret node, nothing changes but the caret, which goes to that level's first leaf; otherwise the caret line rule, then exactly one new entry with the next id, one deeper, fresh, registered under the level, written right after the caret node, holding the caret; the parent is untouched; returns true |
| Editing.Editor.WriteChild | main.js:144-151 | one new fresh level, one deeper, is registered under the level with the next id and written after the caret node, and holds the caret; no other entry changes |
| Editing.Editor.Outdent | main.js:155-175 | `OutdentEffect`: under the root or with no parent nothing changes; otherwise the caret line rule, then the caret goes to the line after the level in the parent, or to a new empty line appended to the parent; the registry is unchanged; returns true |
| Editing.Editor.StepOut | main.js:166-173 | a line right after the level gets the caret; otherwise one empty line is appended to the parent and gets the caret |
| Editing.Editor.SplitHorz | main.js:177-214 | true exactly as `Takes` says, that is when there is a parent; `SplitEffect`: the caret line rule; then one new fresh sibling of the same depth, with the next id, is registered under the parent and written right after the level, and gets the caret; on the root nothing else changes |
| Editing.Editor.Erase | main.js:269-280 | true exactly as `Takes` says, that is when the region is one node of at most one character; `EraseEffect`: then the region is one empty line holding the caret; otherwise nothing changes |
| Editing.Editor.MoveUp | main.js:282-291 | `MoveUpEffect`: swaps the level with the node before it in the parent and keeps the caret on it; with none before it nothing changes; always true |
| Editing.Editor.MoveDown | main.js:293-302 | `MoveDownEffect`: the same with the node after it |
| Editing.Editor.PrevSibling | main.js:284 | the node right before the level in its parent, when there is one |
| Editing.Editor.NextSibling | main.js:295 | the node right after the level in its parent, when there is one |
| Editing.Editor.CursorUp | main.js:304-314 | true exactly as `Takes` says, that is when the node before the level is a level and the caret is on the first child; `CursorUpEffect`: then the caret goes to that level's last leaf; otherwise the caret stays; the outline never changes |
| Editing.Editor.CursorDown | main.js:316-326 | true exactly as `Takes` says, that is when the node after the level is a level and the caret is on the last child; `CursorDownEffect`: then the caret goes to that level's first leaf; otherwise the caret stays; the outline never changes |
| Editing.Takes | main.js:177-326 | which commands can decline and when: `erase` on a region that is not one short line, `splitHorz` on the root, `cursorUp`/`cursorDown` unless a level is next to the level and the caret is on its first/last child; every other command returns true |
| Editing.Editor.Effect | main.js:111-128 | the effect predicate of the command a binding names; a command outside this model leaves the outline and the caret as they were |
| Editing.Editor.Run | main.js:111-128 | the command's result is `Takes`, and its effect is `Effect` of that command, from the starting snapshot; a declining command leaves the registry and caret unchanged (only `splitHorz` on the root drops its caret line); the registry stays valid; every level it registers is newly allocated |
| Editing.Editor.OnKeyDown | main.js:100-133 | an unregistered level gives `NoLevel` and changes nothing; no accepting chord gives `Passed` and changes nothing; otherwise the first accepting chord's command `c` runs with its `Effect`, and the result is `Handled(c)` exactly when `c` reports true, and `Passed` otherwise; every level other than the caret's level and its parent is unchanged; every level the press registers is newly allocated, so a caller can press on it next |
| Editing.Editor.Press | main.js:111-132 | the same first-match rule and effect on a registered level; every level it registers is newly allocated |
| Editing.Editor.Dispatch | main.js:111-132 | the chosen command runs with its `Effect`, and its verdict decides between `Handled` and `Passed`; every level it registers is newly allocated |
| Editing.Editor.InitialValid | main.js:44-56 | the two starting levels form a valid registry |
| Editing.Editor.constructor | main.js:44-56 | the root (id 0, depth -1) holds exactly the first level (id 1, depth 0), which holds one empty line and the caret; the counter is at 2; both levels are newly allocated |
| Keys.Lower | util.js:118 | same length, every character ASCII lower-cased |
| Keys.StripSpaces | util.js:126 | no space is left, and every other character keeps its count |
| Keys.Split | util.js:124 | at least one piece, none containing `+` |
| Keys.Keystroke.constructor | util.js:117-121 | the event is kept, its key is lower-cased, and `handled` starts false |
| Keys.Accepts | util.js:122-150 | the reference definition of `is`: every token of the chord fits the event, a modifier by its flag and any other token by the lower-cased key, and every modifier flag that is set is named |
| Keys.Keystroke.Is | util.js:122-150 | the token loop returns exactly `Accepts(event, chord)`; `handled` becomes true on success and is left unchanged on failure |
| Keys.SplitJoin | util.js:124 | splitting the `+`-join of pieces without `+` gives the pieces back |
| Keys.JoinSplit | util.js:124 | joining the pieces of a split gives the chord back |
| Keys.LowerStripCommute | util.js:126 | lower-casing and removing spaces commute |
| Keys.NormalizeIdempotent | util.js:126 | normalising a token twice is normalising it once |
| Keys.TokensOfCanon | util.js:126 | folding and stripping the whole chord first changes none of its tokens |
| Keys.CaseAndSpaceInsensitive | util.js:126 | chords equal after folding and stripping accept the same events |
| Keys.SpacedChordExample | util.js:126 | `"Ctrl + H"` and `"ctrl+h"` accept the same events |
| Keys.ModifierMismatchRejects | util.js:123-147 | modifiers named in the chord that differ from the event's flags mean rejection |
| Keys.KeyMismatchRejects | util.js:118-143 | a key token other than the lower-cased event key means rejection |
| Keys.EmptyTokenNeedsPlus | util.js:139-142 | an accepted chord with an empty token means the key is named `plus` |
| Keys.CtrlPlusPlus | util.js:139-142 | `ctrl++` accepts exactly Ctrl alone with the key `plus` |
| Keys.SameTokenSet | util.js:124-147 | chords with the same token set accept the same events |
| Keys.ModifierOrderExample | util.js:124-138 | `shift+ctrl+x` and `ctrl+shift+x` accept the same events |
| Keys.TokensOfJoin | util.js:124-126 | the tokens of a join of lower-case, space-free names are those names |
| Bindings.Table | main.js:111-128 | the seventeen chords of `onKeyDown`, each with its command, in the order they are tried |
| Bindings.OneKeyChord | util.js:122-150 | a chord of modifier names and one key name accepts exactly the events with those modifiers and that key |
| Bindings.TableShape | main.js:111-128 | every chord of the table is lower-case modifier names and one key name, and its signature is the listed one |
| Bindings.BindingAccepts | main.js:111-128 | each chord of the table accepts exactly the events with its (shift, ctrl, alt, key) signature |
| Bindings.SignaturesDistinct | main.js:111-128 | no two chords of the table have the same signature |
| Bindings.AtMostOneBinding | main.js:111-128 | no event is accepted by two chords of the table |
| Bindings.FirstMatch | main.js:111-128 | the first binding at or after `from` that fits the event, with none before it, or none at all |
| Bindings.FirstMatchBySignature | main.js:111-132 | an event with the signature listed for a binding selects that binding, whatever comes before it in the table |
| Bindings.NoLaterMatch | main.js:111-128 | after a fitting binding, no later one fits |
| Bindings.FirstAccepted | util.js:117-150 | the `is` calls in table order stop at `FirstMatch`, and `handled` is set exactly when a chord accepted |
| Sandbox.Concat | main.js:404 | joining no part gives the empty string, and one part gives that part |
| Sandbox.ConcatAppend | main.js:404 | joining concatenated part lists concatenates the joins |
| Sandbox.Outcome | main.js:375-405 | for a script that runs, there is a result exactly when it neither cancelled nor threw while running |
| Sandbox.EvalScript | main.js:375-405 | the callback loop computes `Outcome`: nothing when cancelled or faulted, otherwise the written parts joined in order |
| Sandbox.OutcomeAppend | main.js:375-405 | running two scripts in sequence concatenates their outputs, and either one cancelling cancels the whole |
| Sandbox.Examples | main.js:380-404 | two writes give their concatenation; a cancel after writing, or a throw, gives nothing |
| Scenarios.TabIndents | main.js:135-153 | on a new page, Tab on the empty line is `Handled(Indent)`: the first level becomes [line, level 2], level 2 holds one empty line and has the caret |
| Scenarios.TabThenShiftTab | main.js:155-175 | Tab and then Shift+Tab on level 2 is `Handled(Outdent)`: the first level becomes [line, level 2, line] and the caret is on the new last line |
| Scenarios.ShiftEnterSplits | main.js:177-214 | on a new page, Shift+Enter is `Handled(SplitHorizontal)` and the root holds levels 1 and 2 |
| Scenarios.TabPicks | main.js:111-128 | Tab selects the first chord, bound to `indent` |
| Scenarios.ShiftTabPicks | main.js:111-128 | Shift+Tab selects the second chord, bound to `outdent` |
| Scenarios.ShiftEnterPicks | main.js:111-128 | Shift+Enter selects the third chord, bound to `splitHorz` |
| Units.IntToString | util.js:17 | `num.toString()` of an integer: at least one character; it starts with a minus sign exactly when the number is negative, and the rest is digits; `IntRoundTrip` reads it back |
| Units.NatToString | util.js:17 | decimal digits, at least one, with no leading zero |
| Units.NatRoundTrip | util.js:17 | the digits read back as the number |
| Units.IntRoundTrip | util.js:17 | the decimal string of an integer parses back to it |
| Units.IntToStringInjective | util.js:17 | different integers get different strings |
| Units.WithUnit | util.js:16-26 | the string ends with the unit, and what precedes the unit parses to the number |
| Units.Px | util.js:16-18 | ends with `px`, and the rest parses back to the number |
| Units.Pc | util.js:20-22 | ends with `%`, and the rest parses back to the number |
| Units.Em | util.js:24-26 | ends with `em`, and the rest parses back to the number |
| Units.FormatExamples | util.js:16-22 | `px(12)` is `"12px"` and `pc(-50)` is `"-50%"` |

## Left out

- Browser caret placement (`_moveCursorTo`, `focusTo`, `window.getSelection`, and the climb from the selection anchor to `$selRoot` in `onKeyDown`). The caret is the ghost `focus`; the caret node and its level are parameters.
- A selection that is not collapsed. The model has no way to tell it apart.
- `splitVert` and the column/row branch of `splitHorz`. Rows are unregistered wrapper elements with percentage widths. The column branch of `splitHorz` refers to the undefined `firstCol`, so it always throws. No level is a column in the model.
- Editing.Editor.Run: `splitVert`, `evalHTML`, `evalJS`, `pushJS`, `sendJSONToJS`, `sendJSONToHTML` and `fetchURL` are reported as handled and change nothing here. Their effect on the tree is not modelled: they depend on markup parsing, script execution, `JSON.parse`, Hogan templates, a next sibling that may be missing, or network I/O. Several of them can also throw instead of returning true, and then the key press is not prevented, while the model reports `Handled`:
  - `sendJSONToJS` and `sendJSONToHTML` read `data-id` from a next sibling that may be missing or a line (main.js:428-433, main.js:451-456), and `JSON.parse` arbitrary text (main.js:432, main.js:455);
  - inline `evalJS` and `evalHTML` give `write` the result of `$(text).get(0)`, which is undefined unless the text is markup, and `appendChild`/`insertBefore` then throws (main.js:340, main.js:363, main.js:525-528);
  - `pushJS` on the root throws inside `splitHorz` (main.js:410, main.js:74).
- `Valid` is an invariant of the modelled commands only. Outside them the program can break it:
  - the block forms of `evalJS` and `evalHTML` and the `fetchURL` command `clear()` a whole region (main.js:344, main.js:367, main.js:480), detaching nested level elements whose registry entries stay;
  - `splitVert` registers columns whose elements sit in a row, not directly in the parent's content;
  - a press the editor lets through (for example `erase` returning false) goes to the browser's own editing, which can delete lines and level elements.
- The script text of `_evalJS` and its `new Function` execution. A script is given as the trace of its `write`/`cancel` calls and of a possible throw while it runs. Script text that does not parse makes `new Function` throw out of `_evalJS` itself (main.js:391), since the `try` is inside the generated body; that case is not modelled. The `data` argument is not modelled.
- Sandbox.Action: `write(...)` receives any values and `join('')` converts them (`write(1+1)` gives `"2"`, `null` and `undefined` give `""`). A `Write` step carries the already converted text; the conversion is not modelled.
- Sortable (`updateSortable`, `Sortable.create`), styling, `$Level`/`$NewLine` markup and the `Component` prop plumbing: DOM and library glue with no logic to model.
- A text node given as a preceder to `write`, which is raised to its parent element. In the model a preceder is always a child of the region.
- Keys.Lower: only ASCII letters are case-folded. `toLowerCase` also folds other scripts. No chord name the editor uses needs that, but event keys go through the same function: `toLowerCase` folds the Kelvin sign U+212A to `k`, so Ctrl+Shift with that key runs `pushJS` in the program and is `Passed` in the model.
- Units.Px, Units.Pc, Units.Em: numbers are integers. JavaScript's `toString` of fractions, exponents, `NaN` and `Infinity` is not modelled.
- Editing.Editor.OnKeyDown: after a command declines, the rest of the `||` chain still calls `is` on each remaining chord. The model does not repeat those calls. `NoLaterMatch` proves that none of them accepts, so none changes anything.
- `ev.preventDefault()` is not modelled. The result `Handled` stands for the prevented press.
