/**
 * The automaton core shared by the acceptance program and the tokenizer:
 * symbol specifications, the ordered transition table, the first-match
 * transition lookup and runs of the automaton over a string.
 *
 * State names are plain strings. A trailing '!' marks the "accepting
 * variant" of a name; for lookup, a marked name also sees the transitions
 * declared from its unmarked form (but not the other way round).
 */
module Automaton {

  datatype Option<T> = None | Some(value: T)

  /** A declared transition: from `from`, on any of `symbols` (tried in order), to `to`. */
  datatype Transition = Transition(from: string, symbols: seq<string>, to: string)

  // ---------------------------------------------------------------------
  // Symbol matching
  // ---------------------------------------------------------------------

  /** A symbol is a range `lo-hi` exactly when it has three characters with '-' in the middle. */
  predicate IsRange(symbol: string)
  {
    |symbol| == 3 && symbol[1] == '-'
  }

  /** Does input character `c` satisfy `symbol`? Ranges are inclusive; anything else is a literal. */
  predicate Matches(symbol: string, c: char)
  {
    if IsRange(symbol) then symbol[0] <= c <= symbol[2]
    else symbol == [c]
  }

  /** A range matches exactly the characters between its endpoints, both included; a reversed range matches nothing. */
  lemma MatchesRange(symbol: string, c: char)
    requires IsRange(symbol)
    ensures Matches(symbol, c) <==> symbol[0] <= c && c <= symbol[2]
    ensures symbol[2] < symbol[0] ==> !Matches(symbol, c)
  {
  }

  /** Any other symbol matches only the character it consists of: one of length 0, 2 or more never matches. */
  lemma MatchesLiteral(symbol: string, c: char)
    requires !IsRange(symbol)
    ensures Matches(symbol, c) <==> |symbol| == 1 && symbol[0] == c
    ensures |symbol| != 1 ==> !Matches(symbol, c)
    ensures forall d :: Matches(symbol, c) && Matches(symbol, d) ==> c == d
  {
  }

  // ---------------------------------------------------------------------
  // Marked names and eligibility
  // ---------------------------------------------------------------------

  /** The name ends in the accepting marker '!'. */
  predicate Marked(name: string)
  {
    |name| > 0 && name[|name| - 1] == '!'
  }

  /** The name with at most one trailing '!' removed. */
  function Base(name: string): (base: string)
    ensures Marked(name) ==> base + "!" == name
    ensures !Marked(name) ==> base == name
  {
    if Marked(name) then name[..|name| - 1] else name
  }

  /** Transition `t` may be taken from the current state: it is declared from that name or from its stripped form. */
  predicate Eligible(t: Transition, current: string)
  {
    t.from == current || t.from == Base(current)
  }

  /** Transition `t` fires on `c` from `current`: it is eligible and one of its symbols matches. */
  predicate Fires(t: Transition, current: string, c: char)
  {
    Eligible(t, current) && exists k :: 0 <= k < |t.symbols| && Matches(t.symbols[k], c)
  }

  /** Aliasing is one-way: a marked name sees both declarations, an unmarked name only its own. */
  lemma EligibleOneWay(t: Transition, name: string)
    requires !Marked(name)
    ensures Eligible(t, name) <==> t.from == name
    ensures Eligible(t, name + "!") <==> t.from == name || t.from == name + "!"
  {
    assert Marked(name + "!");
    assert (name + "!")[..|name + "!"| - 1] == name;
  }

  // ---------------------------------------------------------------------
  // Transition lookup
  // ---------------------------------------------------------------------

  /** The target of the first transition, in declaration order, that fires on `c` from `current`. */
  function Lookup(transitions: seq<Transition>, current: string, c: char): Option<string>
    decreases |transitions|
  {
    if transitions == [] then None
    else if Fires(transitions[0], current, c) then Some(transitions[0].to)
    else Lookup(transitions[1..], current, c)
  }

  /** First match wins: the earliest firing transition decides, whatever fires after it. */
  lemma {:induction false} LookupIsFirstFiring(transitions: seq<Transition>, current: string, c: char, i: nat)
    requires i < |transitions| && Fires(transitions[i], current, c)
    requires forall j :: 0 <= j < i ==> !Fires(transitions[j], current, c)
    ensures Lookup(transitions, current, c) == Some(transitions[i].to)
    decreases i
  {
    if i > 0 {
      LookupIsFirstFiring(transitions[1..], current, c, i - 1);
    }
  }

  /** There is no transition exactly when no declared transition fires. */
  lemma {:induction false} LookupNoneIffNoneFires(transitions: seq<Transition>, current: string, c: char)
    ensures Lookup(transitions, current, c) == None <==>
            forall i :: 0 <= i < |transitions| ==> !Fires(transitions[i], current, c)
    decreases |transitions|
  {
    if transitions != [] {
      LookupNoneIffNoneFires(transitions[1..], current, c);
      if !Fires(transitions[0], current, c) {
        forall i | 0 <= i < |transitions| && Fires(transitions[i], current, c)
          ensures i > 0 && Fires(transitions[1..][i - 1], current, c)
        {
        }
      }
    }
  }

  /** The result of a lookup is always the target of some declared transition that fires. */
  lemma {:induction false} LookupTargetFires(transitions: seq<Transition>, current: string, c: char)
    requires Lookup(transitions, current, c).Some?
    ensures exists i :: 0 <= i < |transitions| && Fires(transitions[i], current, c) &&
                        transitions[i].to == Lookup(transitions, current, c).value
    decreases |transitions|
  {
    if !Fires(transitions[0], current, c) {
      LookupTargetFires(transitions[1..], current, c);
      var i :| 0 <= i < |transitions[1..]| && Fires(transitions[1..][i], current, c) &&
               transitions[1..][i].to == Lookup(transitions[1..], current, c).value;
      assert transitions[i + 1] == transitions[1..][i];
    }
  }

  /**
   * A marked name and its unmarked form look up alike as long as nothing is
   * declared from the marked name itself.
   */
  lemma {:induction false} MarkedAliasAgrees(transitions: seq<Transition>, name: string, c: char)
    requires !Marked(name)
    requires forall i :: 0 <= i < |transitions| ==> transitions[i].from != name + "!"
    ensures Lookup(transitions, name + "!", c) == Lookup(transitions, name, c)
    decreases |transitions|
  {
    if transitions != [] {
      EligibleOneWay(transitions[0], name);
      MarkedAliasAgrees(transitions[1..], name, c);
    }
  }

  /** ... but a transition declared from the marked name is invisible from the unmarked one. */
  lemma MarkedAliasDiffers()
    ensures Lookup([Transition("A!", ["x"], "B")], "A!", 'x') == Some("B")
    ensures Lookup([Transition("A!", ["x"], "B")], "A", 'x') == None
  {
    var t := Transition("A!", ["x"], "B");
    assert t.symbols[0] == "x" && Matches("x", 'x');
    assert Fires(t, "A!", 'x');
    assert Base("A") == "A";
  }

  /** An earlier range shadows a later literal for the same state. */
  lemma EarlierRangeShadows()
    ensures Lookup([Transition("A", ["a-z"], "A"), Transition("A", ["z"], "B")], "A", 'z') == Some("A")
  {
    var t := Transition("A", ["a-z"], "A");
    assert t.symbols[0] == "a-z" && Matches("a-z", 'z');
    assert Fires(t, "A", 'z');
  }

  /**
   * The transition scan: transitions in declaration order, and within one
   * transition its symbols in order; the first match decides.
   */
  method FindTransition(transitions: seq<Transition>, current: string, c: char) returns (next: Option<string>)
    ensures next == Lookup(transitions, current, c)
  {
    var base := Base(current);
    for i := 0 to |transitions|
      invariant Lookup(transitions, current, c) == Lookup(transitions[i..], current, c)
    {
      var t := transitions[i];
      if t.from == current || t.from == base {
        for k := 0 to |t.symbols|
          invariant forall j :: 0 <= j < k ==> !Matches(t.symbols[j], c)
        {
          if Matches(t.symbols[k], c) {
            return Some(t.to);
          }
        }
      }
      assert transitions[i..][1..] == transitions[i + 1..];
    }
    return None;
  }

  // ---------------------------------------------------------------------
  // Runs
  // ---------------------------------------------------------------------

  /** Fold the lookup over `input` from `state`; None at the first character with no transition. */
  function Run(transitions: seq<Transition>, state: string, input: string): Option<string>
    decreases |input|
  {
    if input == [] then Some(state)
    else match Lookup(transitions, state, input[0])
      case None => None
      case Some(next) => Run(transitions, next, input[1..])
  }

  /** Running over `u + v` is running over `u`, then over `v` from where `u` stopped. */
  lemma {:induction false} RunAppend(transitions: seq<Transition>, state: string, u: string, v: string)
    ensures Run(transitions, state, u + v) ==
            match Run(transitions, state, u)
            case None => None
            case Some(mid) => Run(transitions, mid, v)
    decreases |u|
  {
    if u == [] {
      assert u + v == v;
    } else {
      assert (u + v)[0] == u[0];
      assert (u + v)[1..] == u[1..] + v;
      match Lookup(transitions, state, u[0])
      case None =>
      case Some(next) => RunAppend(transitions, next, u[1..], v);
    }
  }

  /** Once a run hits a character with no transition, no continuation revives it. */
  lemma RunShortCircuit(transitions: seq<Transition>, state: string, u: string, v: string)
    requires Run(transitions, state, u) == None
    ensures Run(transitions, state, u + v) == None
  {
    RunAppend(transitions, state, u, v);
  }

  /** Extending a run by one character takes one lookup. */
  lemma RunSnoc(transitions: seq<Transition>, state: string, u: string, c: char)
    ensures Run(transitions, state, u + [c]) ==
            match Run(transitions, state, u)
            case None => None
            case Some(mid) => Lookup(transitions, mid, c)
  {
    RunAppend(transitions, state, u, [c]);
    match Run(transitions, state, u)
    case None =>
    case Some(mid) =>
      assert [c][1..] == [];
  }

  /** A dead end inside `input` makes the whole run fail. */
  lemma RunDeadEnd(transitions: seq<Transition>, state: string, input: string, i: nat)
    requires i < |input|
    requires Run(transitions, state, input[..i]).Some?
    requires Lookup(transitions, Run(transitions, state, input[..i]).value, input[i]) == None
    ensures forall m :: i < m <= |input| ==> Run(transitions, state, input[..m]) == None
  {
    RunSnoc(transitions, state, input[..i], input[i]);
    assert input[..i] + [input[i]] == input[..i + 1];
    forall m | i < m <= |input|
      ensures Run(transitions, state, input[..m]) == None
    {
      RunShortCircuit(transitions, state, input[..i + 1], input[i + 1..m]);
      assert input[..i + 1] + input[i + 1..m] == input[..m];
    }
  }
}
