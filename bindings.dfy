/** The chord table of `Editor.onKeyDown` (main.js): seventeen chords, each
    bound to one command, tried in this order. */
module Bindings {
  import opened Wrappers
  import opened Keys

  datatype Command =
    | Indent | Outdent | SplitHorizontal | SplitVertical | Erase
    | CursorUp | CursorDown | MoveUp | MoveDown
    | EvalHtmlInline | EvalHtmlBlock | EvalJsInline | EvalJsBlock
    | PushJs | SendJsonToJs | SendJsonToHtml | FetchUrl

  /** The commands that restructure the outline or move the caret, which
      this model carries out. */
  predicate Structural(c: Command) {
    c in {Indent, Outdent, SplitHorizontal, Erase, CursorUp, CursorDown, MoveUp, MoveDown}
  }

  /** A chord written as its names; the string `is` receives is their
      '+'-join, so `["ctrl", "shift", "enter"]` is `"ctrl+shift+enter"`. */
  datatype Binding = Binding(names: seq<string>, command: Command) {
    function Chord(): string {
      Join(names)
    }
  }

  /** The table, in the order of the `||` chain. */
  const Table: seq<Binding> := [
    Binding(["tab"], Indent),
    Binding(["shift", "tab"], Outdent),
    Binding(["shift", "enter"], SplitHorizontal),
    Binding(["ctrl", "shift", "enter"], SplitVertical),
    Binding(["backspace"], Erase),
    Binding(["arrowup"], CursorUp),
    Binding(["arrowdown"], CursorDown),
    Binding(["ctrl", "alt", "arrowup"], MoveUp),
    Binding(["ctrl", "alt", "arrowdown"], MoveDown),
    Binding(["ctrl", "h"], EvalHtmlInline),
    Binding(["ctrl", "shift", "h"], EvalHtmlBlock),
    Binding(["ctrl", "j"], EvalJsInline),
    Binding(["ctrl", "shift", "j"], EvalJsBlock),
    Binding(["ctrl", "shift", "k"], PushJs),
    Binding(["ctrl", "shift", "o"], SendJsonToJs),
    Binding(["ctrl", "shift", "p"], SendJsonToHtml),
    Binding(["ctrl", "shift", "a"], FetchUrl)
  ]

  /** What an event is, as far as a chord of one key can tell. */
  datatype Signature = Signature(shift: bool, ctrl: bool, alt: bool, key: string)

  function EventSignature(ev: KeyEvent): Signature {
    Signature(ev.shiftKey, ev.ctrlKey, ev.altKey, Lower(ev.key))
  }

  /** The event has the signature binding `i` stands for; by
      `BindingAccepts` this is exactly when that binding's chord accepts
      it. */
  predicate Matches(ev: KeyEvent, i: nat)
    requires i < |TableSignatures|
  {
    EventSignature(ev) == TableSignatures[i]
  }

  /** The signature each chord of the table stands for. */
  const TableSignatures: seq<Signature> := [
    Signature(false, false, false, "tab"),
    Signature(true, false, false, "tab"),
    Signature(true, false, false, "enter"),
    Signature(true, true, false, "enter"),
    Signature(false, false, false, "backspace"),
    Signature(false, false, false, "arrowup"),
    Signature(false, false, false, "arrowdown"),
    Signature(false, true, true, "arrowup"),
    Signature(false, true, true, "arrowdown"),
    Signature(false, true, false, "h"),
    Signature(true, true, false, "h"),
    Signature(false, true, false, "j"),
    Signature(true, true, false, "j"),
    Signature(true, true, false, "k"),
    Signature(true, true, false, "o"),
    Signature(true, true, false, "p"),
    Signature(true, true, false, "a")
  ]

  /** A chord of modifier names and one key name accepts exactly the events
      with its modifiers and that key. */
  lemma OneKeyChord(ev: KeyEvent, chord: string, pieces: seq<string>, key: string)
    requires |pieces| >= 1 && chord == Join(pieces)
    requires forall i :: 0 <= i < |pieces| ==> Canonical(pieces[i])
    requires key != "" && !IsModifier(key) && key in pieces
    requires forall i :: 0 <= i < |pieces| ==> IsModifier(pieces[i]) || pieces[i] == key
    ensures Accepts(ev, chord)
        <==> EventSignature(ev)
             == Signature("shift" in pieces, "ctrl" in pieces, "alt" in pieces, key)
  {
    TokensOfJoin(pieces);
    if Accepts(ev, chord) {
      var i :| 0 <= i < |pieces| && pieces[i] == key;
      assert TokenMatches(pieces[i], Lower(ev.key));
    }
  }

  /** Each chord of the table accepts exactly the events of its signature. */
  lemma BindingAccepts(ev: KeyEvent, i: nat)
    requires i < |Table|
    ensures |Table[i].names| >= 1
    ensures Accepts(ev, Table[i].Chord()) <==> Matches(ev, i)
  {
    TableShape(i);
    OneKeyChord(ev, Table[i].Chord(), Table[i].names, TableSignatures[i].key);
  }

  /** Chord `i` of the table is modifier names and one key name, in lower
      case, and its signature is the one listed for it. */
  predicate WellShaped(i: nat)
    requires i < |Table|
  {
    |Table[i].names| >= 1
    && (forall k :: 0 <= k < |Table[i].names| ==> Canonical(Table[i].names[k]))
    && TableSignatures[i].key != "" && !IsModifier(TableSignatures[i].key)
    && TableSignatures[i].key in Table[i].names
    && (forall k :: 0 <= k < |Table[i].names| ==>
          IsModifier(Table[i].names[k]) || Table[i].names[k] == TableSignatures[i].key)
    && TableSignatures[i]
       == Signature("shift" in Table[i].names, "ctrl" in Table[i].names,
                    "alt" in Table[i].names, TableSignatures[i].key)
  }

  /** Every chord of the table is well shaped. The table is checked a few
      entries at a time, which keeps each check small for the solver. */
  lemma TableShape(i: nat)
    requires i < |Table|
    ensures WellShaped(i)
  {
    if i < 2 {
      TableShape0To1(i);
    } else if i < 4 {
      TableShape2To3(i);
    } else if i < 6 {
      TableShape4To5(i);
    } else if i < 8 {
      TableShape6To7(i);
    } else if i < 10 {
      TableShape8To9(i);
    } else if i < 12 {
      TableShape10To11(i);
    } else if i < 14 {
      TableShape12To13(i);
    } else if i < 16 {
      TableShape14To15(i);
    } else {
      TableShape16(i);
    }
  }

  /** The pieces of `TableShape`, two entries each. Dafny proves each
      piece without its body; the split into one case per entry is there
      only to keep each check small for the solver. */
  lemma TableShape0To1(i: nat)
    requires 0 <= i < 2
    ensures WellShaped(i)
  {
    if i == 0 { } else { }
  }

  lemma TableShape2To3(i: nat)
    requires 2 <= i < 4
    ensures WellShaped(i)
  {
    if i == 2 { } else { }
  }

  lemma TableShape4To5(i: nat)
    requires 4 <= i < 6
    ensures WellShaped(i)
  {
    if i == 4 { } else { }
  }

  lemma TableShape6To7(i: nat)
    requires 6 <= i < 8
    ensures WellShaped(i)
  {
    if i == 6 { } else { }
  }

  lemma TableShape8To9(i: nat)
    requires 8 <= i < 10
    ensures WellShaped(i)
  {
    if i == 8 { } else { }
  }

  lemma TableShape10To11(i: nat)
    requires 10 <= i < 12
    ensures WellShaped(i)
  {
    if i == 10 { } else { }
  }

  lemma TableShape12To13(i: nat)
    requires 12 <= i < 14
    ensures WellShaped(i)
  {
    if i == 12 { } else { }
  }

  lemma TableShape14To15(i: nat)
    requires 14 <= i < 16
    ensures WellShaped(i)
  {
    if i == 14 { } else { }
  }

  lemma TableShape16(i: nat)
    requires i == 16
    ensures WellShaped(i)
  {
  }

  /** No two chords of the table stand for the same signature. */
  lemma SignaturesDistinct(i: nat, j: nat)
    requires i < |TableSignatures| && j < |TableSignatures| && i != j
    ensures TableSignatures[i] != TableSignatures[j]
  {
  }

  /** No event is accepted by two chords of the table, so at most one
      command is tried for real on any key press. */
  lemma AtMostOneBinding(ev: KeyEvent, i: nat, j: nat)
    requires i < |Table| && j < |Table|
    requires Accepts(ev, Table[i].Chord()) && Accepts(ev, Table[j].Chord())
    ensures i == j
  {
    BindingAccepts(ev, i);
    BindingAccepts(ev, j);
    if i != j {
      SignaturesDistinct(i, j);
    }
  }

  /** The first binding at or after `from` whose chord accepts the event. */
  function FirstMatch(ev: KeyEvent, from: nat): (r: Option<nat>)
    requires from <= |Table|
    decreases |Table| - from
    ensures r.Some? ==> from <= r.value < |Table| && Matches(ev, r.value)
    ensures r.Some? ==> forall k :: from <= k < r.value ==> !Matches(ev, k)
    ensures r.None? ==> forall k :: from <= k < |Table| ==> !Matches(ev, k)
  {
    if from == |Table| then None
    else if Matches(ev, from) then Some(from)
    else FirstMatch(ev, from + 1)
  }

  /** An event selects the binding listed with its signature. */
  lemma FirstMatchBySignature(ev: KeyEvent, i: nat)
    requires i < |Table| && EventSignature(ev) == TableSignatures[i]
    ensures FirstMatch(ev, 0) == Some(i)
  {
    assert Matches(ev, i);
    var r := FirstMatch(ev, 0);
    if r.value != i {
      SignaturesDistinct(r.value, i);
    }
  }

  /** Once a binding has fitted, none after it does. */
  lemma NoLaterMatch(ev: KeyEvent, i: nat)
    requires i < |Table| && Matches(ev, i)
    ensures FirstMatch(ev, i + 1).None?
  {
    var r := FirstMatch(ev, i + 1);
    if r.Some? {
      SignaturesDistinct(i, r.value);
    }
  }

  /** `keystroke(ev)` and the `key.is(chord)` calls of the `||` chain: they
      stop at the first chord of the table that accepts the press, and the
      key ends up marked handled exactly when one did. */
  method FirstAccepted(ev: KeyEvent) returns (m: Option<nat>, handled: bool)
    ensures m == FirstMatch(ev, 0)
    ensures handled == m.Some?
  {
    var key := new Keystroke(ev);
    var i := 0;
    while i < |Table|
      invariant 0 <= i <= |Table|
      invariant FirstMatch(ev, i) == FirstMatch(ev, 0)
      invariant !key.handled && key.event == ev
    {
      var hit := key.Is(Table[i].Chord());
      BindingAccepts(ev, i);
      if hit {
        return Some(i), key.handled;
      }
      i := i + 1;
    }
    return None, key.handled;
  }
}
