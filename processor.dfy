/**
 * The acceptance program: each input string is run once from the start
 * state (the first declared state) and reported accepted or rejected.
 */
module Processor {
  import opened Automaton

  /**
   * Accepting in the acceptance program: the name itself ends in '!', or
   * its marked form is a declared state.
   */
  predicate IsAccepting(state: string, states: seq<string>)
  {
    Marked(state) || state + "!" in states
  }

  /** A marked name is accepting whatever is declared; an unmarked one only when its marked form is declared. */
  lemma IsAcceptingCases(state: string, states: seq<string>)
    ensures Marked(state) ==> IsAccepting(state, states)
    ensures !Marked(state) ==> (IsAccepting(state, states) <==> state + "!" in states)
    ensures state + "!" in states ==> IsAccepting(state, states) && IsAccepting(state + "!", states)
  {
    assert Marked(state + "!");
  }

  /** The input runs from the start state without a dead end and stops in an accepting state. */
  predicate Accepted(states: seq<string>, transitions: seq<Transition>, input: string)
    requires |states| > 0
  {
    match Run(transitions, states[0], input)
    case None => false
    case Some(last) => IsAccepting(last, states)
  }

  /**
   * One input of the acceptance program: the character loop with its
   * transition scan, stopping at the first character with no transition.
   */
  method Accepts(states: seq<string>, transitions: seq<Transition>, input: string) returns (accepted: bool)
    requires |states| > 0
    ensures accepted == Accepted(states, transitions, input)
  {
    var current := states[0];
    var valid := true;
    for i := 0 to |input|
      invariant valid
      invariant Run(transitions, states[0], input[..i]) == Some(current)
    {
      var next := FindTransition(transitions, current, input[i]);
      if next.None? {
        RunDeadEnd(transitions, states[0], input, i);
        assert input[..|input|] == input;
        valid := false;
        break;
      }
      RunSnoc(transitions, states[0], input[..i], input[i]);
      assert input[..i] + [input[i]] == input[..i + 1];
      current := next.value;
    }
    if valid {
      assert input[..|input|] == input;
    }
    accepted := valid && IsAccepting(current, states);
  }

  /** Every input is judged on its own, from a fresh start state, and the verdicts come in input order. */
  method ProcessInputs(states: seq<string>, transitions: seq<Transition>, inputs: seq<string>) returns (verdicts: seq<bool>)
    requires |states| > 0
    ensures |verdicts| == |inputs|
    ensures forall i :: 0 <= i < |inputs| ==> verdicts[i] == Accepted(states, transitions, inputs[i])
  {
    verdicts := [];
    for i := 0 to |inputs|
      invariant |verdicts| == i
      invariant forall j :: 0 <= j < i ==> verdicts[j] == Accepted(states, transitions, inputs[j])
    {
      var accepted := Accepts(states, transitions, inputs[i]);
      verdicts := verdicts + [accepted];
    }
  }

  /** The empty input is accepted exactly when the start state is accepting. */
  lemma AcceptedEmpty(states: seq<string>, transitions: seq<Transition>)
    requires |states| > 0
    ensures Accepted(states, transitions, "") <==> IsAccepting(states[0], states)
  {
  }

  /** The first character with no transition rejects the input, and no later character changes that. */
  lemma AcceptedShortCircuit(states: seq<string>, transitions: seq<Transition>, input: string, i: nat, more: string)
    requires |states| > 0 && i < |input|
    requires Run(transitions, states[0], input[..i]).Some?
    requires Lookup(transitions, Run(transitions, states[0], input[..i]).value, input[i]) == None
    ensures !Accepted(states, transitions, input)
    ensures !Accepted(states, transitions, input + more)
  {
    RunDeadEnd(transitions, states[0], input, i);
    assert input[..|input|] == input;
    RunShortCircuit(transitions, states[0], input, more);
  }

  /** A path: if `u` leads from the start state to `mid` and `v` leads from `mid` to an accepting state, `u + v` is accepted. */
  lemma AcceptedAlongPath(states: seq<string>, transitions: seq<Transition>, u: string, v: string, mid: string)
    requires |states| > 0
    requires Run(transitions, states[0], u) == Some(mid)
    requires Run(transitions, mid, v).Some? && IsAccepting(Run(transitions, mid, v).value, states)
    ensures Accepted(states, transitions, u + v)
  {
    RunAppend(transitions, states[0], u, v);
  }

  /**
   * Declaration order decides: with `A a-z A` before `A z B`, the character
   * `z` never reaches `B`, so neither "abz" nor "ab" is accepted; listing
   * `A z B` first makes "abz" accepted.
   */
  lemma ShadowedScenario()
    ensures !Accepted(["A", "B!"], [Transition("A", ["a-z"], "A"), Transition("A", ["z"], "B")], "abz")
    ensures !Accepted(["A", "B!"], [Transition("A", ["a-z"], "A"), Transition("A", ["z"], "B")], "ab")
    ensures Accepted(["A", "B!"], [Transition("A", ["z"], "B"), Transition("A", ["a-z"], "A")], "abz")
  {
    var range, lit := Transition("A", ["a-z"], "A"), Transition("A", ["z"], "B");
    var shadowed, ordered := [range, lit], [lit, range];
    assert range.symbols[0] == "a-z" && lit.symbols[0] == "z";
    assert Matches("a-z", 'a') && Matches("a-z", 'b') && Matches("a-z", 'z') && Matches("z", 'z');
    assert Fires(range, "A", 'a') && Fires(range, "A", 'b') && Fires(range, "A", 'z') && Fires(lit, "A", 'z');
    assert !Fires(lit, "A", 'a') && !Fires(lit, "A", 'b');
    assert Base("A") == "A";
    assert Lookup(shadowed, "A", 'a') == Some("A");
    assert Lookup(shadowed, "A", 'b') == Some("A");
    assert Lookup(shadowed, "A", 'z') == Some("A");
    assert Lookup(ordered, "A", 'z') == Some("B");
    assert Lookup(ordered, "A", 'a') == Some("A");
    assert Lookup(ordered, "A", 'b') == Some("A");
    assert "abz"[1..] == "bz" && "bz"[1..] == "z" && "z"[1..] == [];
    assert "ab"[1..] == "b" && "b"[1..] == [];
    assert Run(shadowed, "A", "abz") == Some("A");
    assert Run(shadowed, "A", "ab") == Some("A");
    assert Run(ordered, "A", "abz") == Some("B");
    assert "A" + "!" == "A!" && "A!"[0] != "B!"[0] && !Marked("A");
    assert !IsAccepting("A", ["A", "B!"]);
    assert "B" + "!" == "B!" == ["A", "B!"][1];
    assert IsAccepting("B", ["A", "B!"]);
  }

  /** A start state that is itself marked accepts the empty input with no transitions at all. */
  lemma MarkedStartAcceptsEmpty()
    ensures Accepted(["S!"], [], "")
  {
    assert Marked("S!");
  }
}
