/** The chord matcher of util.js: `keystroke(ev)` captures a keyboard event
    and offers `is(chord)`, which tells whether the event is the chord written
    as modifier and key names joined by `+` (`"ctrl+shift+enter"`).

    Case is folded on ASCII letters only and only the space character is
    removed from tokens, as `toLowerCase` and `replace(/ /g, '')` do on the
    chord names the editor uses. */
module Keys {

  /** The fields of a browser keyboard event the matcher reads. */
  datatype KeyEvent = KeyEvent(key: string, shiftKey: bool, ctrlKey: bool, altKey: bool)

  // ---------------------------------------------------------------------
  // Strings: case folding, space removal, splitting on '+'
  // ---------------------------------------------------------------------

  function LowerChar(c: char): char {
    if 'A' <= c <= 'Z' then (c as int - 'A' as int + 'a' as int) as char else c
  }

  /** `s.toLowerCase()` on ASCII letters. */
  function Lower(s: string): (r: string)
    ensures |r| == |s|
    ensures forall i :: 0 <= i < |s| ==> r[i] == LowerChar(s[i])
  {
    if s == [] then [] else [LowerChar(s[0])] + Lower(s[1..])
  }

  /** `s.replace(/ /g, '')`: every space removed, the rest in order. */
  function StripSpaces(s: string): (r: string)
    ensures ' ' !in r
    ensures |r| <= |s|
    ensures forall c :: c != ' ' ==> multiset(r)[c] == multiset(s)[c]
  {
    if s == [] then []
    else
      assert s == [s[0]] + s[1..];
      if s[0] == ' ' then StripSpaces(s[1..]) else [s[0]] + StripSpaces(s[1..])
  }

  /** `s.split('+')`: the pieces between the separators; `""` gives `[""]`. */
  function Split(s: string): (r: seq<string>)
    ensures |r| >= 1
    ensures forall i :: 0 <= i < |r| ==> '+' !in r[i]
  {
    if s == [] then [""]
    else
      var rest := Split(s[1..]);
      if s[0] == '+' then [""] + rest else [[s[0]] + rest[0]] + rest[1..]
  }

  /** `pieces.join('+')`, the inverse of `Split` (see `JoinSplit`, `SplitJoin`). */
  function Join(pieces: seq<string>): string {
    if |pieces| == 0 then ""
    else if |pieces| == 1 then pieces[0]
    else pieces[0] + "+" + Join(pieces[1..])
  }

  /** What the loop of `is` turns each piece into. */
  function Normalize(t: string): string {
    StripSpaces(Lower(t))
  }

  function NormalizeAll(ts: seq<string>): (r: seq<string>)
    ensures |r| == |ts|
    ensures forall i :: 0 <= i < |ts| ==> r[i] == Normalize(ts[i])
  {
    if ts == [] then [] else [Normalize(ts[0])] + NormalizeAll(ts[1..])
  }

  /** The normalised tokens of a chord, in order. */
  function Tokens(chord: string): seq<string> {
    NormalizeAll(Split(chord))
  }

  /** The whole chord lower-cased with its spaces removed. */
  function Canon(chord: string): string {
    StripSpaces(Lower(chord))
  }

  // ---------------------------------------------------------------------
  // The acceptance rule
  // ---------------------------------------------------------------------

  predicate IsModifier(t: string) {
    t == "shift" || t == "ctrl" || t == "alt"
  }

  /** One token against the lower-cased event key, tested in the order of
      the loop: a modifier name always passes, an empty token (from `++`)
      passes only for the key name `plus`, any other token must be the key. */
  predicate TokenMatches(t: string, evKey: string) {
    if IsModifier(t) then true
    else if t == "" then evKey == "plus"
    else t == evKey
  }

  predicate TokensAccept(ev: KeyEvent, toks: seq<string>) {
    && (forall i :: 0 <= i < |toks| ==> TokenMatches(toks[i], Lower(ev.key)))
    && (("shift" in toks) == ev.shiftKey)
    && (("ctrl" in toks) == ev.ctrlKey)
    && (("alt" in toks) == ev.altKey)
  }

  /** The reference definition of `keystroke(ev).is(chord)`. */
  predicate Accepts(ev: KeyEvent, chord: string) {
    TokensAccept(ev, Tokens(chord))
  }

  /** `keystroke(ev)`: the event, its lower-cased key and the `handled` flag. */
  class Keystroke {
    const event: KeyEvent
    const evKey: string := Lower(event.key)
    var handled: bool

    constructor (ev: KeyEvent)
      ensures event == ev && evKey == Lower(ev.key) && !handled
    {
      event := ev;
      handled := false;
    }

    /** `is(keyStr)`: scans the tokens, leaves at the first one that does
        not match, then compares the modifier flags; only an accepted chord
        sets `handled`. */
    method Is(keyStr: string) returns (r: bool)
      modifies this`handled
      ensures r == Accepts(event, keyStr)
      ensures handled == (old(handled) || r)
    {
      ghost var toks := Tokens(keyStr);
      var hasShift, hasCtrl, hasAlt := false, false, false;
      var keys := Split(keyStr);
      for i := 0 to |keys|
        invariant hasShift == ("shift" in toks[..i])
        invariant hasCtrl == ("ctrl" in toks[..i])
        invariant hasAlt == ("alt" in toks[..i])
        invariant forall j :: 0 <= j < i ==> TokenMatches(toks[j], evKey)
      {
        var key := Normalize(keys[i]);
        assert key == toks[i];
        assert toks[..i + 1] == toks[..i] + [key];
        if key == "shift" {
          hasShift := true;
        } else if key == "ctrl" {
          hasCtrl := true;
        } else if key == "alt" {
          hasAlt := true;
        } else if key == "" {
          if evKey != "plus" {
            assert !TokenMatches(toks[i], Lower(event.key));
            return false;
          }
        } else if key != evKey {
          assert !TokenMatches(toks[i], Lower(event.key));
          return false;
        }
      }
      assert toks[..|keys|] == toks;
      if hasShift != event.shiftKey || hasCtrl != event.ctrlKey || hasAlt != event.altKey {
        return false;
      }
      handled := true;
      return true;
    }
  }

  // ---------------------------------------------------------------------
  // Split and Join
  // ---------------------------------------------------------------------

  lemma {:induction false} SplitNoPlus(a: string)
    requires '+' !in a
    ensures Split(a) == [a]
  {
    if a != [] {
      SplitNoPlus(a[1..]);
      assert [a[0]] + a[1..] == a;
    }
  }

  lemma {:induction false} SplitAfterPiece(a: string, b: string)
    requires '+' !in a
    ensures Split(a + "+" + b) == [a] + Split(b)
  {
    if a == [] {
      assert a + "+" + b == "+" + b;
      assert ("+" + b)[1..] == b;
    } else {
      SplitAfterPiece(a[1..], b);
      assert (a + "+" + b)[1..] == a[1..] + "+" + b;
      assert [a[0]] + a[1..] == a;
    }
  }

  /** Splitting undoes joining pieces that hold no '+'. */
  lemma {:induction false} SplitJoin(pieces: seq<string>)
    requires |pieces| >= 1
    requires forall i :: 0 <= i < |pieces| ==> '+' !in pieces[i]
    ensures Split(Join(pieces)) == pieces
  {
    if |pieces| == 1 {
      SplitNoPlus(pieces[0]);
    } else {
      SplitJoin(pieces[1..]);
      SplitAfterPiece(pieces[0], Join(pieces[1..]));
    }
  }

  /** Joining undoes splitting: no character of the chord is lost. */
  lemma {:induction false} JoinSplit(s: string)
    ensures Join(Split(s)) == s
  {
    if s != [] {
      JoinSplit(s[1..]);
      var rest := Split(s[1..]);
      if s[0] == '+' {
        assert Join([""] + rest) == "" + "+" + Join(rest);
      } else if |rest| == 1 {
        assert Join([[s[0]] + rest[0]] + rest[1..]) == [s[0]] + rest[0];
      } else {
        assert ([[s[0]] + rest[0]] + rest[1..])[1..] == rest[1..];
        assert Join(rest) == rest[0] + "+" + Join(rest[1..]);
      }
    }
  }

  // ---------------------------------------------------------------------
  // Case and spaces do not matter
  // ---------------------------------------------------------------------

  lemma {:induction false} SplitLower(s: string)
    ensures Split(Lower(s)) == MapLower(Split(s))
  {
    if s != [] {
      SplitLower(s[1..]);
      assert Lower(s)[1..] == Lower(s[1..]);
      var rest := Split(s[1..]);
      if s[0] != '+' {
        assert Lower([s[0]] + rest[0]) == [LowerChar(s[0])] + Lower(rest[0]);
        assert MapLower([[s[0]] + rest[0]] + rest[1..])
            == [Lower([s[0]] + rest[0])] + MapLower(rest[1..]);
        assert MapLower(rest) == [Lower(rest[0])] + MapLower(rest[1..]);
      } else {
        assert MapLower([""] + rest) == [""] + MapLower(rest);
      }
    }
  }

  function MapLower(ts: seq<string>): (r: seq<string>)
    ensures |r| == |ts|
    ensures forall i :: 0 <= i < |ts| ==> r[i] == Lower(ts[i])
  {
    if ts == [] then [] else [Lower(ts[0])] + MapLower(ts[1..])
  }

  function MapStrip(ts: seq<string>): (r: seq<string>)
    ensures |r| == |ts|
    ensures forall i :: 0 <= i < |ts| ==> r[i] == StripSpaces(ts[i])
  {
    if ts == [] then [] else [StripSpaces(ts[0])] + MapStrip(ts[1..])
  }

  lemma {:induction false} SplitStrip(s: string)
    ensures Split(StripSpaces(s)) == MapStrip(Split(s))
  {
    if s != [] {
      SplitStrip(s[1..]);
      var rest := Split(s[1..]);
      if s[0] == ' ' {
        assert StripSpaces([' '] + rest[0]) == StripSpaces(rest[0]);
        assert MapStrip([[s[0]] + rest[0]] + rest[1..])
            == [StripSpaces(rest[0])] + MapStrip(rest[1..]);
        assert MapStrip(rest) == [StripSpaces(rest[0])] + MapStrip(rest[1..]);
      } else if s[0] == '+' {
        assert StripSpaces(s) == [s[0]] + StripSpaces(s[1..]);
        assert MapStrip([""] + rest) == [""] + MapStrip(rest);
      } else {
        assert StripSpaces(s) == [s[0]] + StripSpaces(s[1..]);
        assert StripSpaces([s[0]] + rest[0]) == [s[0]] + StripSpaces(rest[0]);
        assert MapStrip([[s[0]] + rest[0]] + rest[1..])
            == [StripSpaces([s[0]] + rest[0])] + MapStrip(rest[1..]);
        assert MapStrip(rest) == [StripSpaces(rest[0])] + MapStrip(rest[1..]);
      }
    }
  }

  lemma {:induction false} LowerStripCommute(s: string)
    ensures Lower(StripSpaces(s)) == StripSpaces(Lower(s))
  {
    if s != [] {
      LowerStripCommute(s[1..]);
      assert Lower(s) == [LowerChar(s[0])] + Lower(s[1..]);
      if s[0] != ' ' {
        assert Lower([s[0]] + StripSpaces(s[1..])) == [LowerChar(s[0])] + Lower(StripSpaces(s[1..]));
      }
    }
  }

  lemma LowerIdempotent(s: string)
    ensures Lower(Lower(s)) == Lower(s)
  {
  }

  lemma {:induction false} StripIdempotent(s: string)
    ensures StripSpaces(StripSpaces(s)) == StripSpaces(s)
  {
    if s != [] {
      StripIdempotent(s[1..]);
      if s[0] != ' ' {
        assert StripSpaces([s[0]] + StripSpaces(s[1..])) == [s[0]] + StripSpaces(StripSpaces(s[1..]));
      }
    }
  }

  lemma NormalizeIdempotent(t: string)
    ensures Normalize(Normalize(t)) == Normalize(t)
  {
    LowerStripCommute(Lower(t));
    LowerIdempotent(t);
    StripIdempotent(Lower(t));
  }

  /** Folding the whole chord first changes none of its tokens. */
  lemma TokensOfCanon(chord: string)
    ensures Tokens(Canon(chord)) == Tokens(chord)
  {
    SplitStrip(Lower(chord));
    SplitLower(chord);
    var pieces := Split(chord);
    forall i | 0 <= i < |pieces|
      ensures Tokens(Canon(chord))[i] == Tokens(chord)[i]
    {
      NormalizeIdempotent(pieces[i]);
    }
  }

  /** Matching ignores case and spaces: two chords that agree once folded
      and stripped accept exactly the same events. */
  lemma CaseAndSpaceInsensitive(ev: KeyEvent, a: string, b: string)
    requires Canon(a) == Canon(b)
    ensures Accepts(ev, a) == Accepts(ev, b)
  {
    TokensOfCanon(a);
    TokensOfCanon(b);
  }

  /** `"Ctrl + H"` folds and strips to `"ctrl+h"`. */
  lemma SpacedChordCanon()
    ensures Canon("Ctrl + H") == Canon("ctrl+h") == "ctrl+h"
  {
    SpacedChordLower();
    SpacedChordStrip();
  }

  /** The two steps of `SpacedChordCanon`. Dafny proves both without their
      bodies; the asserts are there only to keep each check small for the
      solver. */
  lemma SpacedChordLower()
    ensures Lower("Ctrl + H") == "ctrl + h" && Lower("ctrl+h") == "ctrl+h"
  {
    assert Lower("Ctrl + H") == "ctrl + h";
    assert Lower("ctrl+h") == "ctrl+h";
  }

  lemma SpacedChordStrip()
    ensures StripSpaces("ctrl + h") == "ctrl+h" && StripSpaces("ctrl+h") == "ctrl+h"
  {
    assert " + "[1..] == "+ " && "+ "[1..] == " " && " "[1..] == "";
    assert StripSpaces(" + ") == "+";
    StripSpacesOfParts("ctrl", " + ", "h");
    assert StripSpaces("+") == "+";
    StripSpacesOfParts("ctrl", "+", "h");
    assert "ctrl + h" == "ctrl" + " + " + "h";
    assert "ctrl+h" == "ctrl" + "+" + "h";
  }

  /** The spaced, capitalised way of writing a chord: `"Ctrl + H"` and
      `"ctrl+h"` accept the same events. */
  lemma SpacedChordExample(ev: KeyEvent)
    ensures Accepts(ev, "Ctrl + H") == Accepts(ev, "ctrl+h")
  {
    SpacedChordCanon();
    CaseAndSpaceInsensitive(ev, "Ctrl + H", "ctrl+h");
  }

  lemma {:induction false} StripSpacesAppend(a: string, b: string)
    ensures StripSpaces(a + b) == StripSpaces(a) + StripSpaces(b)
  {
    if a != [] {
      StripSpacesAppend(a[1..], b);
      assert (a + b)[0] == a[0];
      assert (a + b)[1..] == a[1..] + b;
      if a[0] == ' ' {
        assert StripSpaces(a + b) == StripSpaces(a[1..] + b);
        assert StripSpaces(a) == StripSpaces(a[1..]);
      } else {
        assert StripSpaces(a + b) == [a[0]] + StripSpaces(a[1..] + b);
        assert StripSpaces(a) == [a[0]] + StripSpaces(a[1..]);
      }
    } else {
      assert a + b == b;
    }
  }

  lemma StripSpacesOfParts(a: string, sep: string, b: string)
    requires ' ' !in a && ' ' !in b
    requires StripSpaces(sep) == "+"
    ensures StripSpaces(a + sep + b) == a + "+" + b
  {
    StripSpacesAppend(a + sep, b);
    StripSpacesAppend(a, sep);
    NoSpaceFixed(a);
    NoSpaceFixed(b);
  }

  lemma {:induction false} NoSpaceFixed(s: string)
    requires ' ' !in s
    ensures StripSpaces(s) == s
  {
    if s != [] {
      NoSpaceFixed(s[1..]);
      assert [s[0]] + s[1..] == s;
    }
  }

  // ---------------------------------------------------------------------
  // What the rule rejects and accepts
  // ---------------------------------------------------------------------

  /** A modifier named in the chord but not held, or held but not named,
      makes the chord fail. */
  lemma ModifierMismatchRejects(ev: KeyEvent, chord: string)
    requires || ("shift" in Tokens(chord)) != ev.shiftKey
             || ("ctrl" in Tokens(chord)) != ev.ctrlKey
             || ("alt" in Tokens(chord)) != ev.altKey
    ensures !Accepts(ev, chord)
  {
  }

  /** A non-modifier token other than the lower-cased key makes the chord fail. */
  lemma KeyMismatchRejects(ev: KeyEvent, chord: string, i: nat)
    requires i < |Tokens(chord)|
    requires !IsModifier(Tokens(chord)[i]) && Tokens(chord)[i] != ""
    requires Tokens(chord)[i] != Lower(ev.key)
    ensures !Accepts(ev, chord)
  {
  }

  /** An empty token passes only for the key named `plus`. */
  lemma EmptyTokenNeedsPlus(ev: KeyEvent, chord: string)
    requires "" in Tokens(chord) && Accepts(ev, chord)
    ensures Lower(ev.key) == "plus"
  {
    var i :| 0 <= i < |Tokens(chord)| && Tokens(chord)[i] == "";
    assert TokenMatches(Tokens(chord)[i], Lower(ev.key));
  }

  /** Only the set of tokens matters, not their order or repetition. */
  lemma SameTokenSet(ev: KeyEvent, a: string, b: string)
    requires forall t :: t in Tokens(a) <==> t in Tokens(b)
    ensures Accepts(ev, a) == Accepts(ev, b)
  {
    if Accepts(ev, a) {
      TokenSetAccepts(ev, Tokens(a), Tokens(b));
    }
    if Accepts(ev, b) {
      TokenSetAccepts(ev, Tokens(b), Tokens(a));
    }
  }

  lemma TokenSetAccepts(ev: KeyEvent, ta: seq<string>, tb: seq<string>)
    requires forall t :: t in ta <==> t in tb
    requires TokensAccept(ev, ta)
    ensures TokensAccept(ev, tb)
  {
    forall j | 0 <= j < |tb|
      ensures TokenMatches(tb[j], Lower(ev.key))
    {
      assert tb[j] in ta;
      var i :| 0 <= i < |ta| && ta[i] == tb[j];
    }
  }

  /** A token made of lower-case letters only. */
  predicate Canonical(t: string) {
    forall i :: 0 <= i < |t| ==> 'a' <= t[i] <= 'z'
  }

  lemma NormalizeCanonical(t: string)
    requires Canonical(t)
    ensures Normalize(t) == t
  {
    assert Lower(t) == t;
    NoSpaceFixed(t);
  }

  /** The tokens of a chord written as lower-case names joined by '+'. */
  lemma TokensOfJoin(pieces: seq<string>)
    requires |pieces| >= 1
    requires forall i :: 0 <= i < |pieces| ==> Canonical(pieces[i])
    ensures Tokens(Join(pieces)) == pieces
  {
    SplitJoin(pieces);
    forall i | 0 <= i < |pieces|
      ensures Normalize(pieces[i]) == pieces[i]
    {
      NormalizeCanonical(pieces[i]);
    }
  }

  /** `ctrl++` is the names `ctrl`, `` and `` joined by '+'. */
  lemma CtrlPlusPlusSpelling()
    ensures Join(["ctrl", "", ""]) == "ctrl++"
  {
  }

  /** The chord `ctrl`, ``, `` is Ctrl with the key named `plus` and
      nothing else. */
  lemma CtrlPlusPlusTokens(ev: KeyEvent, chord: string)
    requires chord == Join(["ctrl", "", ""])
    ensures Accepts(ev, chord)
        <==> ev.ctrlKey && !ev.shiftKey && !ev.altKey && Lower(ev.key) == "plus"
  {
    TokensOfJoin(["ctrl", "", ""]);
    if Accepts(ev, chord) {
      assert TokenMatches(Tokens(chord)[1], Lower(ev.key));
    }
  }

  /** `ctrl++` splits into `ctrl` and two empty tokens, so it accepts
      exactly Ctrl with the key named `plus`. */
  lemma CtrlPlusPlus(ev: KeyEvent)
    ensures Accepts(ev, "ctrl++")
        <==> ev.ctrlKey && !ev.shiftKey && !ev.altKey && Lower(ev.key) == "plus"
  {
    CtrlPlusPlusSpelling();
    CtrlPlusPlusTokens(ev, "ctrl++");
  }

  /** Two chords naming the same modifiers and key in another order accept
      the same events. */
  lemma ReorderedChord(ev: KeyEvent, a: string, b: string)
    requires a == Join(["shift", "ctrl", "x"]) && b == Join(["ctrl", "shift", "x"])
    ensures Accepts(ev, a) == Accepts(ev, b)
  {
    TokensOfJoin(["shift", "ctrl", "x"]);
    TokensOfJoin(["ctrl", "shift", "x"]);
    SameTokenSet(ev, a, b);
  }

  /** Modifier order is irrelevant: `shift+ctrl+x` and `ctrl+shift+x`. */
  lemma ModifierOrderExample(ev: KeyEvent)
    ensures Accepts(ev, "shift+ctrl+x") == Accepts(ev, "ctrl+shift+x")
  {
    assert Join(["shift", "ctrl", "x"]) == "shift+ctrl+x";
    assert Join(["ctrl", "shift", "x"]) == "ctrl+shift+x";
    ReorderedChord(ev, "shift+ctrl+x", "ctrl+shift+x");
  }
}
