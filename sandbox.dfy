/** The output accumulator of `Editor._evalJS` (main.js): a script is run
    with two callbacks, `write(txt)`, which collects a part, and `cancel()`,
    which raises a flag; a script that throws while it runs is cancelled as
    well, by the `catch` wrapped around it. The result is no text when the
    flag is up, and otherwise the parts joined in the order they were
    written. The script itself is given as the trace of the callback calls
    it makes; script text that does not parse never runs, and is not a
    trace here. */
module Sandbox {
  import opened Wrappers

  /** One step of a running script: a `write` call, a `cancel` call, or an
      exception thrown by the script, after which it runs no further. */
  datatype Action = Write(text: string) | Cancel | Fault

  /** `parts.join('')`. */
  function Concat(parts: seq<string>): (r: string)
    ensures |parts| == 0 ==> r == ""
    ensures |parts| == 1 ==> r == parts[0]
  {
    if |parts| == 0 then "" else parts[0] + Concat(parts[1..])
  }

  /** The texts passed to `write`, in order. */
  function Texts(trace: seq<Action>): (r: seq<string>)
    ensures |r| <= |trace|
  {
    if |trace| == 0 then []
    else if trace[0].Write? then [trace[0].text] + Texts(trace[1..])
    else Texts(trace[1..])
  }

  /** A trace that neither cancels nor throws. */
  predicate Clean(trace: seq<Action>) {
    forall k :: 0 <= k < |trace| ==> trace[k].Write?
  }

  /** What the accumulator promises: nothing when the script cancelled or
      threw, and otherwise everything it wrote, joined. */
  function Outcome(trace: seq<Action>): (r: Option<string>)
    ensures r.Some? <==> Clean(trace)
  {
    if Clean(trace) then Some(Concat(Texts(trace))) else None
  }

  /** `_evalJS`: the callbacks run in the order the script calls them; an
      exception stops the script and cancels it. */
  method EvalScript(trace: seq<Action>) returns (r: Option<string>)
    ensures r == Outcome(trace)
  {
    var cancelled := false;
    var parts: seq<string> := [];
    var i := 0;
    while i < |trace|
      invariant 0 <= i <= |trace|
      invariant cancelled <==> !Clean(trace[..i])
      invariant parts == Texts(trace[..i])
    {
      TextsStep(trace, i);
      match trace[i] {
        case Write(txt) =>
          parts := parts + [txt];
        case Cancel =>
          cancelled := true;
        case Fault =>
          cancelled := true;
          break;
      }
      i := i + 1;
    }
    if cancelled {
      return None;
    }
    assert trace[..i] == trace;
    return Some(Concat(parts));
  }

  /** Extending a prefix by one action adds that action's text, if any. */
  lemma TextsStep(trace: seq<Action>, i: nat)
    requires i < |trace|
    ensures Texts(trace[..i + 1])
         == Texts(trace[..i]) + (if trace[i].Write? then [trace[i].text] else [])
  {
    assert trace[..i + 1] == trace[..i] + [trace[i]];
    TextsAppend(trace[..i], [trace[i]]);
  }

  lemma {:induction false} TextsAppend(a: seq<Action>, b: seq<Action>)
    ensures Texts(a + b) == Texts(a) + Texts(b)
  {
    if |a| == 0 {
      assert a + b == b;
    } else {
      assert (a + b)[1..] == a[1..] + b;
      TextsAppend(a[1..], b);
    }
  }

  lemma {:induction false} ConcatAppend(x: seq<string>, y: seq<string>)
    ensures Concat(x + y) == Concat(x) + Concat(y)
  {
    if |x| == 0 {
      assert x + y == y;
    } else {
      assert (x + y)[1..] == x[1..] + y;
      ConcatAppend(x[1..], y);
    }
  }

  /** Running two scripts one after the other: the output is the first
      one's followed by the second one's, and either one cancelling
      cancels the whole. */
  lemma OutcomeAppend(a: seq<Action>, b: seq<Action>)
    ensures Outcome(a + b)
         == if Outcome(a).Some? && Outcome(b).Some? then Some(Outcome(a).value + Outcome(b).value)
            else None
  {
    if Clean(a) && Clean(b) {
      TextsAppend(a, b);
      ConcatAppend(Texts(a), Texts(b));
    } else if !Clean(a) {
      var k :| 0 <= k < |a| && !a[k].Write?;
      assert !(a + b)[k].Write?;
    } else {
      var k :| 0 <= k < |b| && !b[k].Write?;
      assert !(a + b)[|a| + k].Write?;
    }
  }

  /** `write("a"); write("b")` yields `"ab"`; a `cancel()` anywhere, even
      after the writes, and a throw, yield nothing. */
  lemma Examples()
    ensures Outcome([Write("a"), Write("b")]) == Some("ab")
    ensures Outcome([Write("a"), Cancel]) == None
    ensures Outcome([Write("a"), Fault, Write("b")]) == None
  {
    var ab := [Write("a"), Write("b")];
    assert Clean(ab);
    assert ab[1..] == [Write("b")] && ab[1..][1..] == [];
    assert Texts(ab) == ["a", "b"];
    assert ["a", "b"][1..] == ["b"];
    assert Concat(["a", "b"]) == "a" + "b" == "ab";
    assert !([Write("a"), Cancel][1].Write?);
    assert !([Write("a"), Fault, Write("b")][1].Write?);
  }
}
